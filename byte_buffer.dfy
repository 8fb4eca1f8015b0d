/**
 * `ByteBuffer` (ByteBuffer.cs): a read-only view that is either one flat
 * `ArraySegment<byte>` or the run of `BufferSegment` nodes from `head` to
 * `tail`.
 *
 * A view over nodes is paired with a ghost sequence `nodes`: the chain from
 * `head` following `next` until null. Its bytes (`Content`) are the bytes of
 * that whole chain, which is what `Length`, the indexer and `Slice` walk;
 * `IndexOf`, the enumerator and `GetArraySegment` stop at `tail` instead.
 * The two agree when `tail` is the last node (`Tailed`). A slice that runs
 * past the last node has a null `tail`: then the enumerator runs to the end
 * of the chain, and `IndexOf` dereferences null when `value` is absent.
 */
module ByteBuffers {
  import opened Bytes
  import opened Segments

  datatype ByteBuffer = ByteBuffer(head: BufferSegment?, tail: BufferSegment?, data: ArraySegment)

  /** `new ByteBuffer(ArraySegment<byte> data)`. */
  function FromData(data: ArraySegment): ByteBuffer
  {
    ByteBuffer(null, null, data)
  }

  /** `new ByteBuffer(BufferSegment head, BufferSegment tail)`. */
  function FromChain(head: BufferSegment?, tail: BufferSegment?): ByteBuffer
  {
    ByteBuffer(head, tail, DefaultSegment)
  }

  /** `default(ByteBuffer)`: flat, over no array. */
  const Empty := ByteBuffer(null, null, DefaultSegment)

  /** `b` is a well-formed view and `nodes` is its chain; the tail is one of its nodes or null. */
  ghost predicate Valid(b: ByteBuffer, nodes: seq<BufferSegment>)
    reads nodes
  {
    if b.head == null then b.tail == null && b.data.Valid() && nodes == []
    else b.data == DefaultSegment && IsChain(b.head, nodes) && (b.tail == null || b.tail in nodes)
  }

  /** Where the tail is in the chain: the index of its first occurrence, or past the end when it is null. */
  ghost function TailAt(b: ByteBuffer, nodes: seq<BufferSegment>): (t: nat)
    reads nodes
    requires Valid(b, nodes) && b.head != null
    ensures t <= |nodes| && (t == |nodes| <==> b.tail == null)
    ensures t < |nodes| ==> nodes[t] == b.tail
    ensures forall i :: 0 <= i < t ==> nodes[i] != b.tail
  {
    if b.tail == null then |nodes|
    else
      var k := NodeIndex(nodes, b.tail);
      assert forall i :: 0 <= i < k ==> nodes[..k][i] == nodes[i];
      k
  }

  /** The tail is the last node of the chain. */
  ghost predicate Tailed(b: ByteBuffer, nodes: seq<BufferSegment>)
  {
    b.head != null ==> |nodes| > 0 && b.tail == nodes[|nodes| - 1]
  }

  /** The logical bytes of the view. */
  ghost function Content(b: ByteBuffer, nodes: seq<BufferSegment>): seq<byte>
    reads nodes
    requires Valid(b, nodes)
  {
    if b.head == null then b.data.Bytes() else SegBytes(Buffers(nodes))
  }

  /** The windows from `head` to `tail` (to the end of the chain when `tail` is null), or the flat window. */
  ghost function Scanned(b: ByteBuffer, nodes: seq<BufferSegment>): seq<ArraySegment>
    reads nodes
    requires Valid(b, nodes)
  {
    if b.head == null then [b.data]
    else if b.tail == null then Buffers(nodes)
    else Buffers(nodes)[..NodeIndex(nodes, b.tail) + 1]
  }

  /** The number of bytes before window `k`. */
  ghost function Before(bufs: seq<ArraySegment>, k: nat): int
    requires k <= |bufs|
  {
    TotalCount(bufs[..k])
  }

  lemma SegBytesOne(s: seq<ArraySegment>)
    requires |s| == 1
    ensures SegBytes(s) == s[0].Bytes()
  {
    assert |s[..0]| == 0;
  }

  /** The bytes of windows are those of the first followed by those of the rest. */
  lemma SegBytesFirst(bufs: seq<ArraySegment>)
    requires bufs != []
    ensures SegBytes(bufs) == bufs[0].Bytes() + SegBytes(bufs[1..])
  {
    assert bufs[..1] + bufs[1..] == bufs;
    SegBytesAppend(bufs[..1], bufs[1..]);
    SegBytesOne(bufs[..1]);
  }

  /** The bytes of a chain are those before window `k`, window `k`, and those after. */
  lemma SegBytesSplit(bufs: seq<ArraySegment>, k: nat)
    requires k < |bufs|
    ensures SegBytes(bufs) == SegBytes(bufs[..k]) + bufs[k].Bytes() + SegBytes(bufs[k + 1..])
  {
    assert bufs[..k] + bufs[k..] == bufs;
    SegBytesAppend(bufs[..k], bufs[k..]);
    SegBytesFirst(bufs[k..]);
    assert bufs[k..][1..] == bufs[k + 1..];
    ConcatAssoc(SegBytes(bufs[..k]), bufs[k].Bytes(), SegBytes(bufs[k + 1..]));
  }

  lemma ContentLength(b: ByteBuffer, nodes: seq<BufferSegment>)
    requires Valid(b, nodes) && b.head != null
    ensures |Content(b, nodes)| == TotalCount(Buffers(nodes))
  {
    SegBytesLength(Buffers(nodes));
  }

  /** `IsEmpty`. */
  predicate IsEmpty(b: ByteBuffer)
    reads b.head
  {
    (b.head == null && b.data.count == 0) || (b.head != null && b.head == b.tail && b.head.buffer.count == 0)
  }

  /** `IsSingleBuffer`. */
  predicate IsSingleBuffer(b: ByteBuffer)
  {
    b.head == null || b.head == b.tail
  }

  /**
   * An empty view has no bytes, and for a flat or one-node view the converse
   * holds too. (A chain of several empty nodes has no bytes but is not `IsEmpty`.)
   */
  lemma {:induction false} IsEmptyMeansNoBytes(b: ByteBuffer, nodes: seq<BufferSegment>)
    requires Valid(b, nodes) && (Tailed(b, nodes) || b.tail == null)
    ensures IsEmpty(b) ==> Content(b, nodes) == []
    ensures IsSingleBuffer(b) ==> (IsEmpty(b) <==> Content(b, nodes) == [])
  {
    if b.head != null && b.head == b.tail {
      HeadIsLast(nodes);
      assert nodes == [b.head];
      assert Buffers(nodes) == [b.head.buffer];
      SegBytesOne([b.head.buffer]);
    }
  }

  /** The head of a chain links to null exactly when it is the only node. */
  lemma HeadIsLast(nodes: seq<BufferSegment>)
    requires |nodes| > 0 && IsChain(nodes[0], nodes)
    ensures nodes[0].next == null <==> |nodes| == 1
  {
    if |nodes| > 1 {
      assert nodes[0].next == nodes[1];
    }
  }

  /**
   * `Length`: the number of bytes of a flat view, or the sum of the window
   * sizes from `head` following `next` until null (not until `tail`).
   */
  method Length(b: ByteBuffer, ghost nodes: seq<BufferSegment>) returns (n: int)
    requires Valid(b, nodes)
    ensures n == |Content(b, nodes)|
    ensures b.head == null ==> n == b.data.count
    ensures b.head != null ==> n == TotalCount(Buffers(nodes))
  {
    var segment := b.head;
    if segment == null {
      return b.data.count;
    }
    ghost var bufs := Buffers(nodes);
    n := 0;
    ghost var i := 0;
    while segment != null
      invariant 0 <= i <= |nodes|
      invariant segment == if i < |nodes| then nodes[i] else null
      invariant n == TotalCount(bufs[..i])
      decreases |nodes| - i
    {
      assert bufs[..i + 1][..i] == bufs[..i];
      n := n + segment.buffer.count;
      segment := segment.next;
      i := i + 1;
    }
    assert bufs[..i] == bufs;
    ContentLength(b, nodes);
  }

  /**
   * `IndexOf(value, start)`. `start` is accepted and ignored. Over a flat view
   * it returns `Array.IndexOf` of the window: an index into the whole array.
   * Over nodes it scans `head` to `tail` and returns the sizes of the windows
   * passed plus the array index found in the hit window. Both are the logical
   * position only when the windows start at array index 0. With a null tail
   * and no hit, the scan steps past the last node and dereferences null.
   */
  method IndexOf(b: ByteBuffer, ghost nodes: seq<BufferSegment>, value: byte, start: int) returns (r: Result<int>)
    requires Valid(b, nodes)
    ensures b.head == null && b.data.arr.Null? ==> r == Throws(ArgumentNull)
    ensures b.head == null && b.data.arr.Arr? ==> r == Ok(ChainIndexOf(Scanned(b, nodes), value))
    ensures b.head != null ==> r == ScanOutcome(b.tail == null, ChainIndexOf(Scanned(b, nodes), value))
  {
    var segment := b.head;
    if segment == null {
      if b.data.arr.Null? {
        return Throws(ArgumentNull);
      }
      var index := ArrayIndexOf(b.data.arr.elems, value, b.data.offset, b.data.count);
      assert Scanned(b, nodes) == [b.data] && [b.data][1..] == [];
      return Ok(index);
    }
    r := ScanChain(b, nodes, value);
  }

  /** What the scan over nodes gives for the found position `index`: a miss with no tail ends at a null node. */
  function ScanOutcome(untailed: bool, index: int): Result<int> {
    if untailed && index == -1 then Throws(NullReference) else Ok(index)
  }

  /**
   * What the scan of `IndexOf` means: -1 exactly when the windows it scans
   * hold no `value`; over a single window a hit is an array index inside the
   * window holding `value`; and when every window starts at array index 0, a
   * hit is the first logical position of `value`.
   */
  lemma IndexOfMeaning(bufs: seq<ArraySegment>, value: byte)
    requires NonNull(bufs)
    ensures ChainIndexOf(bufs, value) == -1 <==> value !in SegBytes(bufs)
    ensures |bufs| == 1 && ChainIndexOf(bufs, value) != -1 ==>
              var r, w := ChainIndexOf(bufs, value), bufs[0];
              w.offset <= r < w.offset + w.count && w.arr.elems[r] == value
    ensures ZeroOffsets(bufs) && ChainIndexOf(bufs, value) != -1 ==>
              FirstAt(SegBytes(bufs), value, ChainIndexOf(bufs, value))
  {
    ChainIndexOfMiss(bufs, value);
    if ZeroOffsets(bufs) && ChainIndexOf(bufs, value) != -1 {
      ChainIndexOfFirst(bufs, value);
    }
    if |bufs| == 1 {
      assert bufs[1..] == [];
    }
  }

  /** `value` first occurs in `s` at position `p`. */
  predicate FirstAt(s: seq<byte>, value: byte, p: int) {
    0 <= p < |s| && s[p] == value && value !in s[..p]
  }

  /** The loop of `IndexOf` over the nodes from `head` to `tail`, or to null when there is no tail. */
  method ScanChain(b: ByteBuffer, ghost nodes: seq<BufferSegment>, value: byte) returns (r: Result<int>)
    requires Valid(b, nodes) && b.head != null
    ensures r == ScanOutcome(b.tail == null, ChainIndexOf(Scanned(b, nodes), value))
  {
    ghost var bufs := Buffers(nodes);
    ghost var t := TailAt(b, nodes);
    ghost var scanned := Scanned(b, nodes);
    assert scanned == if t < |nodes| then bufs[..t + 1] else bufs;
    assert NonNull(scanned);
    r := ScanNodes(b.head, b.tail, nodes, scanned, value);
  }

  /**
   * The nodes `nodes` link in order, the last to null, and the first of them
   * hold the windows `scanned`; the last of those is `tail`, which occurs
   * nowhere earlier, or `tail` is null and they are all of the nodes.
   */
  ghost predicate ScanPlan(nodes: seq<BufferSegment>, scanned: seq<ArraySegment>, tail: BufferSegment?)
    reads nodes
  {
    && 0 < |scanned| <= |nodes| && NonNull(scanned)
    && (forall k :: 0 <= k < |nodes| - 1 ==> nodes[k].next == nodes[k + 1])
    && nodes[|nodes| - 1].next == null
    && (forall k :: 0 <= k < |scanned| ==> nodes[k].buffer == scanned[k])
    && (tail == null ==> |scanned| == |nodes|)
    && (tail != null ==> nodes[|scanned| - 1] == tail)
    && (forall k :: 0 <= k < |scanned| - 1 ==> nodes[k] != tail)
  }

  /** The scanning loop itself, from the first node `segment` of `nodes`. */
  method ScanNodes(segment: BufferSegment, tail: BufferSegment?, ghost nodes: seq<BufferSegment>, ghost scanned: seq<ArraySegment>, value: byte)
    returns (r: Result<int>)
    requires ScanPlan(nodes, scanned, tail) && nodes[0] == segment
    ensures r == ScanOutcome(tail == null, ChainIndexOf(scanned, value))
  {
    var node: BufferSegment? := segment;
    var count := 0;
    ghost var i := 0;
    while true
      invariant 0 <= i <= |scanned| && 0 <= count
      invariant tail != null ==> i < |scanned|
      invariant i < |nodes| ==> node == nodes[i]
      invariant i == |nodes| ==> node == null
      invariant ChainIndexOf(scanned, value) == Shift(count, ChainIndexOf(scanned[i..], value))
      decreases |nodes| - i
    {
      if node == null {
        assert scanned[i..] == [];
        return Throws(NullReference);
      }
      ScanStep(scanned, i, value);
      var index := ArrayIndexOf(node.buffer.arr.elems, value, node.buffer.offset, node.buffer.count);
      if index != -1 {
        count := count + index;
        return Ok(count);
      }
      count := count + node.buffer.count;
      if node == tail {
        assert scanned[i + 1..] == [];
        break;
      }
      node := node.next;
      i := i + 1;
    }
    return Ok(-1);
  }

  /** One round of the scan: window `i` is searched, then the windows after it. */
  lemma ScanStep(ws: seq<ArraySegment>, i: nat, value: byte)
    requires NonNull(ws) && i < |ws|
    ensures NonNull(ws[i + 1..]) && ws[i].Valid() && ws[i].arr.Arr?
    ensures
      var w := ws[i];
      var index := ArrayIndexOf(w.arr.elems, value, w.offset, w.count);
      ChainIndexOf(ws[i..], value) == if index != -1 then index else Shift(w.count, ChainIndexOf(ws[i + 1..], value))
  {
    assert ws[i..][0] == ws[i] && ws[i..][1..] == ws[i + 1..];
  }

  /** A result of a scan of later windows, seen from `count` bytes earlier. */
  function Shift(count: int, r: int): int {
    if r == -1 then -1 else count + r
  }

  /**
   * What `IndexOf` over the nodes computes from their windows: the array index
   * of the first hit in the first window that holds `value`, plus the sizes
   * of the windows before it, or -1.
   */
  function ChainIndexOf(bufs: seq<ArraySegment>, value: byte): (r: int)
    requires NonNull(bufs)
    ensures r >= -1
  {
    if bufs == [] then -1
    else
      var w := bufs[0];
      var index := ArrayIndexOf(w.arr.elems, value, w.offset, w.count);
      if index != -1 then index else Shift(w.count, ChainIndexOf(bufs[1..], value))
  }

  /** The scan finds nothing exactly when no window holds `value`. */
  lemma {:induction false} ChainIndexOfMiss(bufs: seq<ArraySegment>, value: byte)
    requires NonNull(bufs)
    ensures ChainIndexOf(bufs, value) == -1 <==> value !in SegBytes(bufs)
  {
    if bufs != [] {
      var w := bufs[0];
      SegBytesFirst(bufs);
      assert NonNull(bufs[1..]);
      ChainIndexOfMiss(bufs[1..], value);
      var index := ArrayIndexOf(w.arr.elems, value, w.offset, w.count);
      if index != -1 {
        WindowHit(w, value, index);
      } else {
        assert w.Bytes() == w.arr.elems[w.offset..w.offset + w.count];
      }
      InConcat(w.Bytes(), SegBytes(bufs[1..]), value);
    }
  }

  lemma InConcat(a: seq<byte>, b: seq<byte>, value: byte)
    ensures value in a + b <==> value in a || value in b
  {
    if value in a + b {
      var k :| 0 <= k < |a + b| && (a + b)[k] == value;
      if k >= |a| { assert b[k - |a|] == value; }
    }
  }

  /**
   * When every window starts at array index 0, a hit of the scan is the first
   * position of `value` in the bytes of the windows.
   */
  lemma {:induction false} ChainIndexOfFirst(bufs: seq<ArraySegment>, value: byte)
    requires NonNull(bufs) && ZeroOffsets(bufs) && ChainIndexOf(bufs, value) != -1
    ensures FirstAt(SegBytes(bufs), value, ChainIndexOf(bufs, value))
  {
    var w := bufs[0];
    SegBytesFirst(bufs);
    var index := ArrayIndexOf(w.arr.elems, value, w.offset, w.count);
    if index != -1 {
      WindowHit(w, value, index);
      FirstBefore(w.Bytes(), SegBytes(bufs[1..]), index, value);
    } else {
      assert NonNull(bufs[1..]) && ZeroOffsets(bufs[1..]);
      ChainIndexOfFirst(bufs[1..], value);
      FirstAfter(w.Bytes(), SegBytes(bufs[1..]), ChainIndexOf(bufs[1..], value), value);
    }
  }

  /** `Array.IndexOf`'s hit at array index `index` is the first hit among the bytes of the window. */
  lemma WindowHit(w: ArraySegment, value: byte, index: int)
    requires w.Valid() && w.arr.Arr?
    requires w.offset <= index < w.offset + w.count
    requires w.arr.elems[index] == value && value !in w.arr.elems[w.offset..index]
    ensures FirstAt(w.Bytes(), value, index - w.offset)
  {
    assert w.Bytes()[..index - w.offset] == w.arr.elems[w.offset..index];
  }

  /** A first hit after bytes without the value is a first hit overall. */
  lemma FirstAfter(a: seq<byte>, rest: seq<byte>, x: int, value: byte)
    requires value !in a && FirstAt(rest, value, x)
    ensures FirstAt(a + rest, value, |a| + x)
  {
    assert (a + rest)[..|a| + x] == a + rest[..x];
  }

  /** A first hit stays the first hit when bytes are appended. */
  lemma FirstBefore(w: seq<byte>, rest: seq<byte>, x: int, value: byte)
    requires FirstAt(w, value, x)
    ensures FirstAt(w + rest, value, x)
  {
    assert (w + rest)[..x] == w[..x];
  }

  // ---------------------------------------------------------------------
  // Slicing, on the windows of the chain

  /** Where `FindSegment` stops: a node index and the offset left over, or past the last node. */
  datatype Landing = Landing(index: nat, residual: int) | RanOff

  /**
   * `FindSegment` from window `j` with `off` bytes still to skip. It moves on
   * while the window's array index `End` is at most `off`, which compares an
   * array index with a count of bytes; the two agree only for windows that
   * start at array index 0.
   */
  function Locate(bufs: seq<ArraySegment>, j: nat, off: int): (l: Landing)
    requires j <= |bufs|
    ensures l.Landing? ==> j <= l.index < |bufs|
    decreases |bufs| - j
  {
    if j == |bufs| then RanOff
    else if bufs[j].offset + bufs[j].count <= off then Locate(bufs, j + 1, off - bufs[j].count)
    else Landing(j, off)
  }

  /**
   * The windows a slice is made of, and whether the walk found its end
   * (`closed`: the last window was cut to size and unlinked) or ran past the
   * last node (the view then has no tail).
   */
  datatype Cut = Cut(windows: seq<ArraySegment>, closed: bool)

  /** `p` in front of the windows of a cut. */
  function Prepend(p: seq<ArraySegment>, c: Result<Cut>): Result<Cut>
  {
    match c
    case Ok(cut) => Ok(Cut(p + cut.windows, cut.closed))
    case Throws(e) => Throws(e)
  }

  /**
   * The walk of `Slice` from its first window: windows smaller than what is
   * still wanted are kept whole; the first one that is not is cut to the
   * `length` still wanted by `Slice(0, length)`, whose window constructor may
   * throw.
   */
  function TakeWindows(ws: seq<ArraySegment>, length: int): Result<Cut>
  {
    if ws == [] then Ok(Cut([], false))
    else if ws[0].count < length then Prepend([ws[0]], TakeWindows(ws[1..], length - ws[0].count))
    else
      match NewSegment(ws[0].arr, ws[0].offset, length)
      case Ok(w) => Ok(Cut([w], true))
      case Throws(e) => Throws(e)
  }

  /**
   * What `Slice(offset, length)` builds over a chain with windows `bufs`: a
   * null-reference exception when `FindSegment` runs off the chain, the
   * exception of the first node's `Slice(residual)`, or the cut of the walk
   * from that trimmed window on.
   */
  function SliceWindows(bufs: seq<ArraySegment>, offset: int, length: int): Result<Cut>
  {
    match Locate(bufs, 0, offset)
    case RanOff => Throws(NullReference)
    case Landing(j, res) =>
      match NewSegment(bufs[j].arr, bufs[j].offset + res, bufs[j].count - res)
      case Throws(e) => Throws(e)
      case Ok(_) => TakeWindows(Trimmed(bufs, j, res), length)
  }

  lemma BeforeStep(bufs: seq<ArraySegment>, j: nat)
    requires j < |bufs|
    ensures Before(bufs, j + 1) == Before(bufs, j) + bufs[j].count
  {
    assert bufs[..j + 1][..j] == bufs[..j];
  }

  /**
   * `FindSegment` keeps track of the bytes it skips: the bytes before the
   * window it stops at plus the residual are the bytes asked for, and it runs
   * off the chain only past all of them (an array index `End` is never below
   * the window's count).
   */
  lemma {:induction false} LocateSum(bufs: seq<ArraySegment>, j: nat, off: int)
    requires NonNull(bufs) && j <= |bufs|
    ensures Locate(bufs, j, off).Landing? ==>
              var l := Locate(bufs, j, off);
              Before(bufs, l.index) + l.residual == Before(bufs, j) + off &&
              (off >= 0 ==> l.residual >= 0)
    ensures Locate(bufs, j, off).RanOff? && off >= 0 ==> Before(bufs, j) + off >= TotalCount(bufs)
    decreases |bufs| - j
  {
    if j == |bufs| {
      assert bufs[..j] == bufs;
    } else if bufs[j].offset + bufs[j].count <= off {
      LocateSum(bufs, j + 1, off - bufs[j].count);
      BeforeStep(bufs, j);
    }
  }

  /**
   * Over windows that start at array index 0, `FindSegment` is right: it runs
   * off the chain exactly when `off` is past the bytes left, and otherwise
   * stops inside a window.
   */
  lemma {:induction false} LocateZeroOffsets(bufs: seq<ArraySegment>, j: nat, off: int)
    requires NonNull(bufs) && ZeroOffsets(bufs) && j <= |bufs| && off >= 0
    ensures Locate(bufs, j, off).RanOff? <==> Before(bufs, j) + off >= TotalCount(bufs)
    ensures Locate(bufs, j, off).Landing? ==>
              var l := Locate(bufs, j, off);
              0 <= l.residual < bufs[l.index].count
    decreases |bufs| - j
  {
    LocateSum(bufs, j, off);
    if j == |bufs| {
      assert bufs[..j] == bufs;
    } else {
      BeforeStep(bufs, j);
      TotalCountBound(bufs, j + 1);
      if bufs[j].offset + bufs[j].count <= off {
        LocateZeroOffsets(bufs, j + 1, off - bufs[j].count);
      }
    }
  }

  /** The bytes before a window are at most all of them. */
  lemma TotalCountBound(bufs: seq<ArraySegment>, j: nat)
    requires AllValid(bufs) && j <= |bufs|
    ensures Before(bufs, j) <= TotalCount(bufs)
  {
    assert bufs[..j] + bufs[j..] == bufs;
    TotalCountAppend(bufs[..j], bufs[j..]);
    assert AllValid(bufs[j..]);
    SegBytesLength(bufs[j..]);
  }

  lemma TotalCountFirst(ws: seq<ArraySegment>)
    requires ws != []
    ensures TotalCount(ws) == ws[0].count + TotalCount(ws[1..])
  {
    assert ws == [ws[0]] + ws[1..];
    TotalCountAppend([ws[0]], ws[1..]);
    assert [ws[0]][..0] == [];
  }

  lemma TakePrefix(a: seq<byte>, b: seq<byte>, n: int)
    requires |a| <= n <= |a| + |b|
    ensures (a + b)[..n] == a + b[..n - |a|]
  {
  }

  lemma NonNullCons(w: ArraySegment, ws: seq<ArraySegment>)
    requires w.Valid() && w.arr.Arr? && NonNull(ws)
    ensures NonNull([w] + ws)
  {
    assert forall i :: 0 < i < |[w] + ws| ==> ([w] + ws)[i] == ws[i - 1];
  }

  /**
   * `cut` is a correct outcome of taking `length` bytes from `ws`: it closed
   * exactly when the windows hold at least that many bytes, and then its
   * windows hold exactly the first `length` bytes; otherwise it kept every
   * window.
   */
  predicate GoodCut(ws: seq<ArraySegment>, length: int, cut: Cut) {
    && 0 <= length && cut.windows != [] && NonNull(cut.windows)
    && (cut.closed <==> length <= TotalCount(ws))
    && (cut.closed ==> length <= |SegBytes(ws)| && SegBytes(cut.windows) == SegBytes(ws)[..length])
    && (!cut.closed ==> cut.windows == ws)
  }

  /** A walk that succeeds asked for a non-negative length and produced a correct cut. */
  lemma {:induction false} TakeWindowsContent(ws: seq<ArraySegment>, length: int)
    requires NonNull(ws) && ws != [] && TakeWindows(ws, length).Ok?
    ensures GoodCut(ws, length, TakeWindows(ws, length).value)
    decreases |ws|, 1
  {
    if ws[0].count < length {
      TakeWindowsKeep(ws, length);
    } else {
      TakeWindowsClose(ws, length);
    }
  }

  /** The walk keeps the first window whole and goes on. */
  lemma {:induction false} TakeWindowsKeep(ws: seq<ArraySegment>, length: int)
    requires NonNull(ws) && ws != [] && TakeWindows(ws, length).Ok? && ws[0].count < length
    ensures GoodCut(ws, length, TakeWindows(ws, length).value)
    decreases |ws|, 0
  {
    var w := ws[0];
    assert NonNull(ws[1..]);
    if ws[1..] == [] {
      assert ws == [w];
      TotalCountFirst(ws);
      SegBytesLength(ws);
    } else {
      TakeWindowsContent(ws[1..], length - w.count);
      var rest := TakeWindows(ws[1..], length - w.count);
      assert TakeWindows(ws, length) == Prepend([w], rest);
      KeepStep(ws, length, rest.value);
    }
  }

  /** A correct cut of the windows after the first, with the first in front, is a correct cut. */
  lemma KeepStep(ws: seq<ArraySegment>, length: int, rest: Cut)
    requires NonNull(ws) && ws != [] && ws[0].count < length
    requires GoodCut(ws[1..], length - ws[0].count, rest)
    ensures GoodCut(ws, length, Prepend([ws[0]], Ok(rest)).value)
  {
    var w := ws[0];
    var cut := Prepend([w], Ok(rest)).value;
    assert NonNull(ws[1..]);
    SegBytesFirst(ws);
    TotalCountFirst(ws);
    SegBytesLength(ws[1..]);
    SegBytesLength(ws);
    NonNullCons(w, rest.windows);
    SegBytesFirst(cut.windows);
    assert cut.windows[1..] == rest.windows;
    if rest.closed {
      TakePrefix(w.Bytes(), SegBytes(ws[1..]), length);
    } else {
      assert [w] + ws[1..] == ws;
    }
  }

  /** The walk cuts the first window to size and stops. */
  lemma TakeWindowsClose(ws: seq<ArraySegment>, length: int)
    requires NonNull(ws) && ws != [] && TakeWindows(ws, length).Ok? && ws[0].count >= length
    ensures GoodCut(ws, length, TakeWindows(ws, length).value)
  {
    var w := ws[0];
    var c := ArraySegment(w.arr, w.offset, length);
    assert TakeWindows(ws, length) == Ok(Cut([c], true));
    CloseCount(ws, length);
    CloseBytes(ws, length);
  }

  /** A length no larger than the first window is no larger than the whole. */
  lemma CloseCount(ws: seq<ArraySegment>, length: int)
    requires NonNull(ws) && ws != [] && 0 <= length <= ws[0].count
    ensures length <= TotalCount(ws) && length <= |SegBytes(ws)|
  {
    TotalCountFirst(ws);
    assert NonNull(ws[1..]);
    SegBytesLength(ws[1..]);
    SegBytesLength(ws);
  }

  /** The window cut to `length` bytes from the first holds the first `length` bytes of the whole. */
  lemma CloseBytes(ws: seq<ArraySegment>, length: int)
    requires NonNull(ws) && ws != [] && 0 <= length <= ws[0].count && length <= |SegBytes(ws)|
    ensures SegBytes([ArraySegment(ws[0].arr, ws[0].offset, length)]) == SegBytes(ws)[..length]
  {
    var w := ws[0];
    var c := ArraySegment(w.arr, w.offset, length);
    SegBytesFirst(ws);
    SegBytesOne([c]);
    WindowTake(w, length);
    PrefixOfConcat(w.Bytes(), SegBytes(ws[1..]), length);
  }

  /**
   * A walk over windows of a real array succeeds for every non-negative
   * length, and throws for a negative one.
   */
  lemma {:induction false} TakeWindowsOutcome(ws: seq<ArraySegment>, length: int)
    requires NonNull(ws) && ws != []
    ensures TakeWindows(ws, length).Ok? <==> 0 <= length
    ensures length < 0 ==> TakeWindows(ws, length) == Throws(ArgumentOutOfRange)
  {
    var w := ws[0];
    if w.count < length {
      assert length > 0;
      if ws[1..] != [] {
        assert NonNull(ws[1..]);
        TakeWindowsOutcome(ws[1..], length - w.count);
      }
    }
  }

  /** `t` is `s` from `|a| + res` on, given how both are made of the same pieces. */
  lemma Glue(s: seq<byte>, t: seq<byte>, a: seq<byte>, wb: seq<byte>, r: seq<byte>, res: int)
    requires s == a + wb + r && 0 <= res <= |wb| && t == wb[res..] + r
    ensures |a| + res <= |s| && t == s[|a| + res..]
  {
    assert (a + wb + r)[|a| + res..] == wb[res..] + r;
  }

  /** Window `j` with its first `res` bytes dropped, followed by the windows after it. */
  function Trimmed(bufs: seq<ArraySegment>, j: nat, res: int): seq<ArraySegment>
    requires j < |bufs|
  {
    [ArraySegment(bufs[j].arr, bufs[j].offset + res, bufs[j].count - res)] + bufs[j + 1..]
  }

  lemma TrimmedAt(bufs: seq<ArraySegment>, j: nat, res: int)
    requires j < |bufs|
    ensures |Trimmed(bufs, j, res)| == |bufs| - j
    ensures forall i :: 0 < i < |bufs| - j ==> Trimmed(bufs, j, res)[i] == bufs[j + i]
  {
  }

  lemma TrimmedNonNull(bufs: seq<ArraySegment>, j: nat, res: int)
    requires NonNull(bufs) && j < |bufs|
    requires ArraySegment(bufs[j].arr, bufs[j].offset + res, bufs[j].count - res).Valid()
    ensures NonNull(Trimmed(bufs, j, res))
  {
    assert NonNull(bufs[j + 1..]);
    NonNullCons(ArraySegment(bufs[j].arr, bufs[j].offset + res, bufs[j].count - res), bufs[j + 1..]);
  }

  lemma TrimmedBytes(bufs: seq<ArraySegment>, j: nat, res: int)
    requires NonNull(bufs) && j < |bufs| && 0 <= res <= bufs[j].count
    ensures SegBytes(Trimmed(bufs, j, res)) == bufs[j].Bytes()[res..] + SegBytes(bufs[j + 1..])
  {
    var w := bufs[j];
    assert w.Valid() && w.arr.Arr?;
    assert Trimmed(bufs, j, res) == [ArraySegment(w.arr, w.offset + res, w.count - res)] + bufs[j + 1..];
    TrimmedHead(w, res, bufs[j + 1..]);
  }

  lemma TrimmedHead(w: ArraySegment, res: int, rest: seq<ArraySegment>)
    requires w.Valid() && w.arr.Arr? && 0 <= res <= w.count
    ensures SegBytes([ArraySegment(w.arr, w.offset + res, w.count - res)] + rest) == w.Bytes()[res..] + SegBytes(rest)
  {
    SuffixHead(ArraySegment(w.arr, w.offset + res, w.count - res), rest);
    WindowDrop(w, res);
  }

  lemma SuffixHead(w0: ArraySegment, rest: seq<ArraySegment>)
    ensures SegBytes([w0] + rest) == w0.Bytes() + SegBytes(rest)
  {
    SegBytesFirst([w0] + rest);
    assert ([w0] + rest)[1..] == rest;
  }

  /** The bytes of window `j` from `res` on, and those after it, are the chain's bytes from `Before(bufs, j) + res` on. */
  lemma SuffixBytes(bufs: seq<ArraySegment>, j: nat, res: int, tb: seq<byte>)
    requires NonNull(bufs) && j < |bufs| && 0 <= res <= bufs[j].count
    requires tb == bufs[j].Bytes()[res..] + SegBytes(bufs[j + 1..])
    ensures 0 <= Before(bufs, j) + res <= |SegBytes(bufs)|
    ensures tb == SegBytes(bufs)[Before(bufs, j) + res..]
  {
    assert AllValid(bufs[..j]);
    SegBytesLength(bufs[..j]);
    SegBytesSplit(bufs, j);
    Glue(SegBytes(bufs), tb, SegBytes(bufs[..j]), bufs[j].Bytes(), SegBytes(bufs[j + 1..]), res);
  }

  /**
   * The first node trimmed by `Slice(residual)`, followed by the windows after
   * it, holds the bytes of the chain from the bytes before that node plus the
   * residual on.
   */
  lemma SuffixWindows(bufs: seq<ArraySegment>, j: nat, res: int)
    requires NonNull(bufs) && j < |bufs| && 0 <= res <= bufs[j].count
    ensures 0 <= Before(bufs, j) + res <= |SegBytes(bufs)|
    ensures SegBytes(Trimmed(bufs, j, res)) == SegBytes(bufs)[Before(bufs, j) + res..]
  {
    TrimmedBytes(bufs, j, res);
    SuffixBytes(bufs, j, res, SegBytes(Trimmed(bufs, j, res)));
  }

  lemma DropTake(c: seq<byte>, o: int, n: int)
    requires 0 <= o && 0 <= n && o + n <= |c|
    ensures c[o..][..n] == c[o..o + n]
  {
  }

  /**
   * `cut` is a correct slice of `length` bytes at `offset` of the bytes `c`:
   * it closed exactly when `c` holds that many bytes from `offset` on, and
   * then holds them; otherwise it holds every byte from `offset` on.
   */
  predicate GoodSlice(c: seq<byte>, offset: int, length: int, cut: Cut) {
    && 0 <= length && cut.windows != [] && NonNull(cut.windows) && 0 <= offset <= |c|
    && (cut.closed <==> offset + length <= |c|)
    && (cut.closed ==> offset + length <= |c| && SegBytes(cut.windows) == c[offset..offset + length])
    && (!cut.closed ==> SegBytes(cut.windows) == c[offset..])
  }

  /** A correct cut of windows holding the bytes of `c` from `o` on is a correct slice at `o`. */
  lemma GoodCutSlice(ws: seq<ArraySegment>, c: seq<byte>, o: int, length: int, cut: Cut)
    requires GoodCut(ws, length, cut) && 0 <= o <= |c|
    requires SegBytes(ws) == c[o..] && |SegBytes(ws)| == TotalCount(ws)
    ensures GoodSlice(c, o, length, cut)
  {
    if cut.closed {
      DropTake(c, o, length);
    }
  }

  /**
   * The walk from window `j` trimmed by `res`, when it succeeds, is a correct
   * slice of the chain's bytes at `Before(bufs, j) + res`.
   */
  lemma CutContent(bufs: seq<ArraySegment>, j: nat, res: int, length: int)
    requires NonNull(bufs) && j < |bufs| && 0 <= res <= bufs[j].count
    requires TakeWindows(Trimmed(bufs, j, res), length).Ok?
    ensures GoodSlice(SegBytes(bufs), Before(bufs, j) + res, length, TakeWindows(Trimmed(bufs, j, res), length).value)
  {
    TrimmedNonNull(bufs, j, res);
    SuffixWindows(bufs, j, res);
    TakeWindowsContent(Trimmed(bufs, j, res), length);
    SegBytesLength(Trimmed(bufs, j, res));
    GoodCutSlice(Trimmed(bufs, j, res), SegBytes(bufs), Before(bufs, j) + res, length,
                 TakeWindows(Trimmed(bufs, j, res), length).value);
  }

  /**
   * A chained `Slice(offset, length)` that does not throw, for an offset that
   * is not negative, asked for a non-negative length. When the chain holds
   * `offset + length` bytes the slice is closed and holds exactly the bytes
   * `[offset, offset + length)`; otherwise it has no tail and holds every byte
   * from `offset` on.
   */
  lemma SliceContent(bufs: seq<ArraySegment>, offset: int, length: int)
    requires NonNull(bufs) && 0 <= offset && SliceWindows(bufs, offset, length).Ok?
    ensures GoodSlice(SegBytes(bufs), offset, length, SliceWindows(bufs, offset, length).value)
  {
    LocateSum(bufs, 0, offset);
    assert Before(bufs, 0) == 0 by { assert bufs[..0] == []; }
    LandedContent(bufs, Locate(bufs, 0, offset), offset, length);
  }

  /** The content of a slice whose offset lands at `l`, `offset` bytes from the start. */
  lemma LandedContent(bufs: seq<ArraySegment>, l: Landing, offset: int, length: int)
    requires NonNull(bufs) && l.Landing? && l.index < |bufs| && Before(bufs, l.index) + l.residual == offset
    requires 0 <= l.residual <= bufs[l.index].count
    requires TakeWindows(Trimmed(bufs, l.index, l.residual), length).Ok?
    ensures GoodSlice(SegBytes(bufs), offset, length, TakeWindows(Trimmed(bufs, l.index, l.residual), length).value)
  {
    CutContent(bufs, l.index, l.residual, length);
  }

  /**
   * Over windows that start at array index 0, a chained slice at a
   * non-negative offset succeeds exactly when the offset is inside the bytes
   * and the length is not negative; an offset past the bytes makes
   * `FindSegment` return null, and `Slice` then throws a null reference.
   */
  lemma SliceOutcome(bufs: seq<ArraySegment>, offset: int, length: int)
    requires NonNull(bufs) && ZeroOffsets(bufs) && 0 <= offset
    ensures SliceWindows(bufs, offset, length).Ok? <==> offset < TotalCount(bufs) && 0 <= length
    ensures offset >= TotalCount(bufs) ==> SliceWindows(bufs, offset, length) == Throws(NullReference)
    ensures offset < TotalCount(bufs) && length < 0 ==> SliceWindows(bufs, offset, length) == Throws(ArgumentOutOfRange)
  {
    LocateZeroOffsets(bufs, 0, offset);
    assert bufs[..0] == [];
    if offset < TotalCount(bufs) {
      SliceLanded(bufs, Locate(bufs, 0, offset).index, Locate(bufs, 0, offset).residual, length);
    }
  }

  lemma SliceLanded(bufs: seq<ArraySegment>, j: nat, res: int, length: int)
    requires NonNull(bufs) && j < |bufs| && 0 <= res < bufs[j].count
    ensures TakeWindows(Trimmed(bufs, j, res), length).Ok? <==> 0 <= length
    ensures length < 0 ==> TakeWindows(Trimmed(bufs, j, res), length) == Throws(ArgumentOutOfRange)
  {
    TrimmedNonNull(bufs, j, res);
    TakeWindowsOutcome(Trimmed(bufs, j, res), length);
  }

  /**
   * Over a window that does not start at array index 0, `FindSegment`
   * compares an array index with a count of bytes: with windows over bytes
   * `3, 4` (at array indices 2 and 3) and `5, 6`, slicing one byte at offset 3
   * lands in the first window with 3 bytes still to skip, and trimming it
   * throws, though the chain holds 4 bytes.
   */
  lemma SliceOffsetQuirk()
    ensures var bufs := [ArraySegment(Arr([1, 2, 3, 4]), 2, 2), ArraySegment(Arr([5, 6]), 0, 2)];
            && NonNull(bufs) && 3 + 1 <= |SegBytes(bufs)|
            && SliceWindows(bufs, 3, 1) == Throws(ArgumentOutOfRange)
  {
    var bufs := [ArraySegment(Arr([1, 2, 3, 4]), 2, 2), ArraySegment(Arr([5, 6]), 0, 2)];
    SegBytesLength(bufs);
    assert TotalCount(bufs[..1]) == 2;
  }

  /**
   * `FindSegment(segment, ref offset)`: walks from `segment` past every node
   * whose `End` is at most the offset left, taking the node's count off the
   * offset, and returns the node it stops at (null past the last node) with
   * the offset left.
   */
  method FindSegment(segment: BufferSegment?, ghost nodes: seq<BufferSegment>, offset: int)
    returns (found: BufferSegment?, left: int)
    requires IsChain(segment, nodes)
    ensures match Locate(Buffers(nodes), 0, offset)
            case RanOff => found == null
            case Landing(j, res) => found == nodes[j] && left == res
  {
    ghost var bufs := Buffers(nodes);
    found, left := segment, offset;
    ghost var i := 0;
    while found != null
      invariant 0 <= i <= |nodes|
      invariant found == if i < |nodes| then nodes[i] else null
      invariant Locate(bufs, 0, offset) == Locate(bufs, i, left)
      decreases |nodes| - i
    {
      if found.End() <= left {
        left := left - found.buffer.count;
        found := found.next;
        i := i + 1;
      } else {
        break;
      }
    }
  }

  /** Before the walk has kept a window. */
  lemma TakeFirst(ws: seq<ArraySegment>, length: int)
    ensures TakeWindows(ws, length) == Prepend(ws[..0], TakeWindows(ws[0..], length))
  {
    assert ws[0..] == ws;
    match TakeWindows(ws, length)
    case Throws(_) =>
    case Ok(c) => assert ws[..0] + c.windows == c.windows;
  }

  /** The walk keeps window `m` whole and goes on with what is still wanted. */
  lemma TakeStep(ws: seq<ArraySegment>, m: nat, len: int, length: int)
    requires m < |ws| && ws[m].count < len
    requires TakeWindows(ws, length) == Prepend(ws[..m], TakeWindows(ws[m..], len))
    ensures TakeWindows(ws, length) == Prepend(ws[..m + 1], TakeWindows(ws[m + 1..], len - ws[m].count))
  {
    assert ws[m..][0] == ws[m];
    assert ws[m..][1..] == ws[m + 1..];
    assert ws[..m] + [ws[m]] == ws[..m + 1];
    match TakeWindows(ws[m + 1..], len - ws[m].count)
    case Throws(_) =>
    case Ok(c) =>
      assert ws[..m] + ([ws[m]] + c.windows) == ws[..m + 1] + c.windows;
  }

  /** The walk cuts window `m` to the length still wanted and stops. */
  lemma TakeLast(ws: seq<ArraySegment>, m: nat, len: int, length: int)
    requires m < |ws| && len <= ws[m].count
    requires TakeWindows(ws, length) == Prepend(ws[..m], TakeWindows(ws[m..], len))
    ensures TakeWindows(ws, length) ==
              match NewSegment(ws[m].arr, ws[m].offset, len)
              case Ok(w) => Ok(Cut(ws[..m] + [w], true))
              case Throws(e) => Throws(e)
  {
    assert ws[m..][0] == ws[m];
  }

  /** The walk ran past the last window and kept them all. */
  lemma TakeAll(ws: seq<ArraySegment>, len: int, length: int)
    requires TakeWindows(ws, length) == Prepend(ws[..|ws|], TakeWindows(ws[|ws|..], len))
    ensures TakeWindows(ws, length) == Ok(Cut(ws, false))
  {
    assert ws[|ws|..] == [] && ws[..|ws|] + [] == ws;
  }

  /**
   * `r` and its fresh nodes `rn` are what `Slice` builds from the walk's
   * outcome: the same exception, or a view over a chain holding exactly the
   * cut's windows, whose tail is the last node when the walk closed and null
   * when it ran past the last node.
   */
  ghost predicate Built(r: Result<ByteBuffer>, rn: seq<BufferSegment>, outcome: Result<Cut>)
    reads rn
  {
    match outcome
    case Throws(e) => r == Throws(e)
    case Ok(cut) =>
      && r.Ok? && r.value.data == DefaultSegment && |rn| > 0
      && IsChain(r.value.head, rn) && Buffers(rn) == cut.windows
      && r.value.tail == (if cut.closed then rn[|rn| - 1] else null)
  }

  /**
   * `Slice(offset, length)`. A flat view gets the window `length` bytes long
   * at `offset` into its own, as the `ArraySegment` constructor accepts or
   * rejects it. Over nodes, `FindSegment` picks the first node and the offset
   * into it, that node is trimmed by `Slice(offset)`, and the walk keeps whole
   * nodes while they are smaller than what is still wanted, cloning each next
   * node before linking to it, and cuts the last one with `Slice(0, length)`.
   * The method has no modifies clause: it writes only to nodes it creates,
   * so the nodes of `b` are left as they were.
   */
  method Slice(b: ByteBuffer, ghost nodes: seq<BufferSegment>, offset: int, length: int)
    returns (r: Result<ByteBuffer>, ghost rn: seq<BufferSegment>)
    requires Valid(b, nodes)
    ensures b.head == null ==>
              rn == [] &&
              match NewSegment(b.data.arr, b.data.offset + offset, length)
              case Throws(e) => r == Throws(e)
              case Ok(w) => r == Ok(FromData(w))
    ensures b.head != null ==> Built(r, rn, SliceWindows(old(Buffers(nodes)), offset, length))
    ensures r.Ok? ==> Valid(r.value, rn) && (Tailed(r.value, rn) || r.value.tail == null)
    ensures forall i :: 0 <= i < |rn| ==> fresh(rn[i])
    ensures unchanged(nodes)
  {
    rn := [];
    var segment := b.head;
    if segment == null {
      var w := NewSegment(b.data.arr, b.data.offset + offset, length);
      if w.Throws? {
        return Throws(w.error), rn;
      }
      return Ok(FromData(w.value)), rn;
    }
    r, rn := SliceChain(segment, nodes, offset, length);
    BuiltValid(r, rn, SliceWindows(old(Buffers(nodes)), offset, length));
  }

  /** What a chained slice builds is a well-formed view, its tail the last node or null. */
  lemma BuiltValid(r: Result<ByteBuffer>, rn: seq<BufferSegment>, outcome: Result<Cut>)
    requires Built(r, rn, outcome)
    ensures r.Ok? ==> Valid(r.value, rn) && (Tailed(r.value, rn) || r.value.tail == null)
  {
  }

  /** `Slice` over nodes, from the head `segment` of the chain `nodes`. */
  method SliceChain(segment: BufferSegment, ghost nodes: seq<BufferSegment>, offset: int, length: int)
    returns (r: Result<ByteBuffer>, ghost rn: seq<BufferSegment>)
    requires IsChain(segment, nodes)
    ensures Built(r, rn, SliceWindows(old(Buffers(nodes)), offset, length))
    ensures forall i :: 0 <= i < |rn| ==> fresh(rn[i])
  {
    rn := [];
    ghost var bufs := Buffers(nodes);
    ghost var outcome := SliceWindows(bufs, offset, length);
    var first, off := FindSegment(segment, nodes, offset);
    if first == null {
      BuiltThrows(NullReference, rn, outcome);
      r := Throws(NullReference);
    } else {
      ghost var j := Locate(bufs, 0, offset).index;
      ghost var ws := Trimmed(bufs, j, off);
      ghost var trim := NewSegment(bufs[j].arr, bufs[j].offset + off, bufs[j].count - off);
      assert Locate(bufs, 0, offset) == Landing(j, off) && first.buffer == bufs[j];
      assert outcome == if trim.Throws? then Throws(trim.error) else TakeWindows(ws, length);
      TrimmedAt(bufs, j, off);
      RestOfChain(segment, nodes, j, ws, nodes[j + 1..]);
      if trim.Ok? {
        TrimmedNonNull(bufs, j, off);
      }
      r, rn := SliceFromLanding(first, off, nodes[j + 1..], ws, length, outcome);
    }
  }

  /**
   * `Slice` once `FindSegment` has landed `off` bytes into the node `first`:
   * that node is trimmed by `Slice(off)` and the walk starts from the trimmed
   * copy, over the old nodes `rest` after it.
   */
  method SliceFromLanding(first: BufferSegment, off: int, ghost rest: seq<BufferSegment>, ghost ws: seq<ArraySegment>, length: int, ghost outcome: Result<Cut>)
    returns (r: Result<ByteBuffer>, ghost rn: seq<BufferSegment>)
    requires Rest(rest, ws) && first.next == (if rest == [] then null else rest[0])
    requires ws[0] == ArraySegment(first.buffer.arr, first.buffer.offset + off, first.buffer.count - off)
    requires outcome == match NewSegment(first.buffer.arr, first.buffer.offset + off, first.buffer.count - off)
                        case Throws(e) => Throws(e)
                        case Ok(_) => TakeWindows(ws, length)
    requires NewSegment(first.buffer.arr, first.buffer.offset + off, first.buffer.count - off).Ok? ==> NonNull(ws)
    ensures Built(r, rn, outcome)
    ensures forall i :: 0 <= i < |rn| ==> fresh(rn[i])
  {
    var sliced := first.Slice(off);
    if sliced.Throws? {
      return Throws(sliced.error), [];
    }
    r, rn := Walk(sliced.value, rest, ws, length, outcome);
  }

  lemma BuiltThrows(e: Exception, rn: seq<BufferSegment>, outcome: Result<Cut>)
    requires outcome == Throws(e)
    ensures Built(Throws(e), rn, outcome)
  {
  }

  /** The nodes of a chain after its `j`-th node, with a window put before theirs, are what `Walk` starts from. */
  lemma RestOfChain(head: BufferSegment?, nodes: seq<BufferSegment>, j: nat, ws: seq<ArraySegment>, rest: seq<BufferSegment>)
    requires IsChain(head, nodes) && j < |nodes| && rest == nodes[j + 1..]
    requires |ws| == |nodes| - j && forall i :: 0 < i < |ws| ==> ws[i] == nodes[j + i].buffer
    ensures Rest(rest, ws)
    ensures nodes[j].next == if rest == [] then null else rest[0]
  {
    assert forall i :: 0 <= i < |rest| ==> rest[i].buffer == ws[i + 1];
    assert forall i :: 0 <= i < |rest| - 1 ==> rest[i].next == rest[i + 1];
  }

  /** The walk has kept the first `m` windows of `ws` whole, and `len` bytes are still wanted. */
  ghost predicate Walked(ws: seq<ArraySegment>, length: int, m: nat, len: int)
    requires m <= |ws|
    decreases m
  {
    if m == 0 then len == length
    else 0 < len && Walked(ws, length, m - 1, len + ws[m - 1].count)
  }

  lemma {:induction false} WalkedTake(ws: seq<ArraySegment>, length: int, m: nat, len: int)
    requires m <= |ws| && Walked(ws, length, m, len)
    ensures TakeWindows(ws, length) == Prepend(ws[..m], TakeWindows(ws[m..], len))
    decreases m
  {
    if m == 0 {
      TakeFirst(ws, length);
    } else {
      WalkedTake(ws, length, m - 1, len + ws[m - 1].count);
      TakeStep(ws, m - 1, len + ws[m - 1].count, length);
    }
  }

  /**
   * The old nodes after the first one the walk starts from: they hold the
   * windows of `ws` after its first, and are linked in order, the last to null.
   */
  ghost predicate Rest(rest: seq<BufferSegment>, ws: seq<ArraySegment>)
    reads rest
  {
    && |ws| == |rest| + 1
    && (forall i :: 0 <= i < |rest| ==> rest[i].buffer == ws[i + 1])
    && (forall i :: 0 <= i < |rest| - 1 ==> rest[i].next == rest[i + 1])
    && (rest != [] ==> rest[|rest| - 1].next == null)
  }

  /** The nodes `rn` hold the first windows of `ws`. */
  ghost predicate Holds(rn: seq<BufferSegment>, ws: seq<ArraySegment>)
    reads rn`buffer
  {
    |rn| <= |ws| && forall i :: 0 <= i < |rn| ==> rn[i].buffer == ws[i]
  }

  /**
   * The nodes `rn` start at `start` and are linked in order, and the last of
   * them, `prev`, links to `current`; with none, `current` is `start`.
   */
  ghost predicate Chained(rn: seq<BufferSegment>, start: BufferSegment, prev: BufferSegment?, current: BufferSegment?)
    reads rn`next
  {
    && (forall i :: 0 <= i < |rn| - 1 ==> rn[i].next == rn[i + 1])
    && (rn == [] ==> prev == null && current == start)
    && (rn != [] ==> rn[0] == start && prev == rn[|rn| - 1] && prev !in rn[..|rn| - 1] && prev.next == current)
  }

  /** The node the walk is at: not one of the old nodes or of those kept, over the next window, linked to the next old node. */
  ghost predicate AtNode(current: BufferSegment, rn: seq<BufferSegment>, rest: seq<BufferSegment>, ws: seq<ArraySegment>)
    reads current
  {
    && current !in rest && current !in rn && |rn| < |ws|
    && current.buffer == ws[|rn|]
    && current.next == if |rn| < |rest| then rest[|rn|] else null
  }

  lemma WalkedStep(ws: seq<ArraySegment>, length: int, m: nat, len: int)
    requires m < |ws| && Walked(ws, length, m, len) && ws[m].count < len
    ensures Walked(ws, length, m + 1, len - ws[m].count)
  {
  }

  /** Keeping one more node, the one `prev` links to, extends the kept chain. */
  lemma KeptExtend(rn: seq<BufferSegment>, ws: seq<ArraySegment>, start: BufferSegment, prev: BufferSegment?, current: BufferSegment)
    requires Holds(rn, ws) && Chained(rn, start, prev, current)
    requires current !in rn && |rn| < |ws| && current.buffer == ws[|rn|]
    ensures Holds(rn + [current], ws) && Chained(rn + [current], start, current, current.next)
  {
    assert (rn + [current])[..|rn|] == rn;
  }

  /** The old node the walk clones next links to the old node after it. */
  lemma RestNext(rest: seq<BufferSegment>, ws: seq<ArraySegment>, k: nat)
    requires Rest(rest, ws) && k < |rest|
    ensures rest[k].next == if k + 1 < |rest| then rest[k + 1] else null
    ensures rest[k].buffer == ws[k + 1]
  {
  }

  /**
   * The walk of `Slice` from the trimmed first node `start`, whose windows
   * and those of the old nodes `rest` after it are `ws`. It writes only the
   * `next` link of `start` and of nodes it creates.
   */
  method Walk(start: BufferSegment, ghost rest: seq<BufferSegment>, ghost ws: seq<ArraySegment>, length: int, ghost outcome: Result<Cut>)
    returns (r: Result<ByteBuffer>, ghost rn: seq<BufferSegment>)
    requires Rest(rest, ws) && start !in rest && start.buffer == ws[0] && NonNull(ws)
    requires start.next == if rest == [] then null else rest[0]
    requires outcome == TakeWindows(ws, length)
    modifies start
    ensures Built(r, rn, outcome)
    ensures forall i :: 0 <= i < |rn| ==> rn[i] == start || fresh(rn[i])
  {
    rn := [];
    var prev: BufferSegment? := null;
    var current: BufferSegment? := start;
    var len := length;
    ghost var kept := 0;  // the number of nodes kept whole, `|rn|`
    while current != null
      invariant kept == |rn| <= |ws| && Walked(ws, length, kept, len)
      invariant Rest(rest, ws) && Holds(rn, ws) && Chained(rn, start, prev, current)
      invariant current == null ==> |rn| == |ws|
      invariant forall i :: 0 <= i < |rn| ==> rn[i] == start || fresh(rn[i])
      invariant current != null ==> (current == start || fresh(current)) && AtNode(current, rn, rest, ws)
      decreases |ws| - kept
    {
      if current.buffer.count < len {
        WalkedStep(ws, length, kept, len);
        len := len - current.buffer.count;
        kept := kept + 1;
        var next := Advance(start, prev, current, rn, rest, ws);
        prev := current;
        rn := rn + [current];
        current := next;
      } else {
        WalkedTake(ws, length, |rn|, len);
        r, rn := Close(start, prev, current, rn, ws, len, length);
        return;
      }
    }
    OpenBuilt(rn, ws, start, prev, length, len);
    return Ok(FromChain(start, null)), rn;
  }

  /**
   * One step of the walk past a node it keeps whole: the old node after it,
   * if any, is cloned and linked in, so the old chain is left as it was.
   */
  method Advance(start: BufferSegment, prev: BufferSegment?, current: BufferSegment, ghost rn: seq<BufferSegment>, ghost rest: seq<BufferSegment>, ghost ws: seq<ArraySegment>)
    returns (next: BufferSegment?)
    requires Rest(rest, ws) && Holds(rn, ws) && Chained(rn, start, prev, current) && AtNode(current, rn, rest, ws)
    modifies current
    ensures Rest(rest, ws) && Holds(rn + [current], ws) && Chained(rn + [current], start, current, next)
    ensures next == null ==> |rn| + 1 == |ws|
    ensures next != null ==> fresh(next) && AtNode(next, rn + [current], rest, ws)
  {
    next := current.next;
    if next != null {
      RestNext(rest, ws, |rn|);
      next := next.Clone();
    }
    current.next := next;
    assert Rest(rest, ws);
    KeptExtend(rn, ws, start, prev, current);
  }

  /**
   * The end of the walk at a node with at least `len` bytes: that node is cut
   * to `len` bytes and becomes the tail (or the head, when it is the first).
   */
  method Close(start: BufferSegment, prev: BufferSegment?, current: BufferSegment, ghost rn: seq<BufferSegment>, ghost ws: seq<ArraySegment>, len: int, length: int)
    returns (r: Result<ByteBuffer>, ghost rn': seq<BufferSegment>)
    requires Holds(rn, ws) && Chained(rn, start, prev, current) && current !in rn && |rn| < |ws| && current.buffer == ws[|rn|] && NonNull(ws)
    requires len <= current.buffer.count
    requires TakeWindows(ws, length) == Prepend(ws[..|rn|], TakeWindows(ws[|rn|..], len))
    modifies prev
    ensures Built(r, rn', TakeWindows(ws, length))
    ensures forall i :: 0 <= i < |rn'| ==> (i < |rn| && rn'[i] == rn[i]) || fresh(rn'[i])
  {
    TakeLast(ws, |rn|, len, length);
    var cut := current.SliceRange(0, len);
    if cut.Throws? {
      return Throws(cut.error), rn;
    }
    var last := cut.value;
    ghost var ws' := ws[..|rn|] + [last.buffer];
    HoldsCut(rn, ws, last.buffer);
    var first := start;
    if prev == null {
      first := last;
    } else {
      prev.next := last;
    }
    KeptExtend(rn, ws', first, prev, last);
    rn' := rn + [last];
    ChainOf(rn', ws', first, last);
    return Ok(FromChain(first, last)), rn';
  }

  /** The kept nodes and the cut window after them. */
  lemma HoldsCut(rn: seq<BufferSegment>, ws: seq<ArraySegment>, w: ArraySegment)
    requires Holds(rn, ws) && |rn| < |ws| && NonNull(ws) && w.Valid() && w.arr.Arr?
    ensures Holds(rn, ws[..|rn|] + [w]) && |rn| < |ws[..|rn|] + [w]| && (ws[..|rn|] + [w])[|rn|] == w
    ensures NonNull(ws[..|rn|] + [w])
  {
    assert forall i :: 0 <= i < |rn| ==> (ws[..|rn|] + [w])[i] == ws[i];
  }

  /** The walk that ran off the end of the chain kept every node: the view has no tail. */
  lemma OpenBuilt(rn: seq<BufferSegment>, ws: seq<ArraySegment>, start: BufferSegment, prev: BufferSegment?, length: int, len: int)
    requires Holds(rn, ws) && Chained(rn, start, prev, null) && |rn| == |ws| && Walked(ws, length, |rn|, len) && NonNull(ws) && ws != []
    ensures Built(Ok(FromChain(start, null)), rn, TakeWindows(ws, length))
  {
    WalkedTake(ws, length, |rn|, len);
    TakeAll(ws, len, length);
    ChainOf(rn, ws, start, prev);
  }

  /** Nodes linked in order from `start`, the last, `last`, to null, holding windows `ws` of real arrays, are a chain. */
  lemma ChainOf(rn: seq<BufferSegment>, ws: seq<ArraySegment>, start: BufferSegment, last: BufferSegment?)
    requires Holds(rn, ws) && Chained(rn, start, last, null) && |rn| == |ws| && NonNull(ws) && rn != []
    ensures IsChain(start, rn) && Buffers(rn) == ws
  {
  }

  /**
   * What a chained `Slice(offset, length)` gives when the windows start at
   * array index 0 and the range lies inside the view: a well-formed view
   * whose tail is its last node (so the tail links to null) and whose bytes
   * are exactly the bytes `[offset, offset + length)` of the original.
   */
  lemma SliceYields(bufs: seq<ArraySegment>, offset: int, length: int, r: Result<ByteBuffer>, rn: seq<BufferSegment>)
    requires NonNull(bufs) && ZeroOffsets(bufs)
    requires 0 <= offset < |SegBytes(bufs)| && 0 <= length && offset + length <= |SegBytes(bufs)|
    requires Built(r, rn, SliceWindows(bufs, offset, length))
    ensures r.Ok? && Valid(r.value, rn) && Tailed(r.value, rn)
    ensures r.value.tail != null && r.value.tail.next == null
    ensures Content(r.value, rn) == SegBytes(bufs)[offset..offset + length]
  {
    SegBytesLength(bufs);
    SliceOutcome(bufs, offset, length);
    SliceContent(bufs, offset, length);
  }

  /** A cut `n - offset` long, for `n` the total count, is the cut to the end. */
  lemma BuiltWhole(r: Result<ByteBuffer>, rn: seq<BufferSegment>, bufs: seq<ArraySegment>, offset: int, n: int)
    requires n == TotalCount(bufs) && Built(r, rn, SliceWindows(bufs, offset, n - offset))
    ensures Built(r, rn, SliceWindows(bufs, offset, TotalCount(bufs) - offset))
  {
  }

  /**
   * `Slice(offset)`: `Slice(offset, Length - offset)`, everything from
   * `offset` on.
   */
  method SliceFrom(b: ByteBuffer, ghost nodes: seq<BufferSegment>, offset: int)
    returns (r: Result<ByteBuffer>, ghost rn: seq<BufferSegment>)
    requires Valid(b, nodes)
    ensures b.head == null ==>
              rn == [] &&
              match NewSegment(b.data.arr, b.data.offset + offset, b.data.count - offset)
              case Throws(e) => r == Throws(e)
              case Ok(w) => r == Ok(FromData(w))
    ensures b.head != null ==> Built(r, rn, SliceWindows(old(Buffers(nodes)), offset, TotalCount(old(Buffers(nodes))) - offset))
    ensures r.Ok? ==> Valid(r.value, rn) && (Tailed(r.value, rn) || r.value.tail == null)
    ensures forall i :: 0 <= i < |rn| ==> fresh(rn[i])
  {
    ghost var bufs := Buffers(nodes);
    var n := Length(b, nodes);
    ghost var now := Buffers(nodes);
    assert now == bufs;
    r, rn := Slice(b, nodes, offset, n - offset);
    if b.head != null {
      BuiltWhole(r, rn, bufs, offset, n);
    }
  }

  /**
   * Over windows starting at array index 0, `Slice(offset)` of a chain keeps
   * the bytes from `offset` on, so the byte at `offset` comes first; at
   * `offset == Length` it finds no node and throws.
   */
  lemma SliceFromSuffix(bufs: seq<ArraySegment>, offset: int)
    requires NonNull(bufs) && ZeroOffsets(bufs) && 0 <= offset <= |SegBytes(bufs)|
    ensures offset == TotalCount(bufs) ==> SliceWindows(bufs, offset, TotalCount(bufs) - offset) == Throws(NullReference)
    ensures offset < TotalCount(bufs) ==>
              && SliceWindows(bufs, offset, TotalCount(bufs) - offset).Ok?
              && SliceWindows(bufs, offset, TotalCount(bufs) - offset).value.closed
              && SegBytes(SliceWindows(bufs, offset, TotalCount(bufs) - offset).value.windows) == SegBytes(bufs)[offset..]
  {
    var c, n := SegBytes(bufs), TotalCount(bufs);
    SegBytesLength(bufs);
    assert |c| == n;
    SliceOutcome(bufs, offset, n - offset);
    if offset < n {
      var cut := SliceWindows(bufs, offset, n - offset).value;
      SliceContent(bufs, offset, n - offset);
      assert GoodSlice(c, offset, n - offset, cut);
      assert c[offset..offset + (n - offset)] == c[offset..];
    }
  }
}
