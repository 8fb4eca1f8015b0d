/**
 * What `ReceiveAsync` computes, stated against the reference encoder of
 * `Frames`: whatever chunks the bytes of a frame arrive in, the decoder
 * returns that frame, keeps exactly the bytes after it, and reports to
 * `Consumed` exactly the bytes of the frame. The one exception is a frame
 * with no payload and nothing after it: the decoder then waits for input.
 *
 * The proof follows the decoder through the frame: `Expect(k)` is the field
 * and the state it must be in once it has consumed the first `k` bytes of
 * the frame, whatever the chunk boundaries were.
 */
module Framing {
  import opened Bytes
  import opened Frames
  import opened Decoder
  import opened Connection

  /**
   * A frame in the decoder's wire layout, with any 7-bit length field
   * `code` that announces its payload length: what `CodedFrameBytes`
   * encodes.
   */
  datatype Wire = Wire(fin: bool, opcode: int, masked: bool, code: nat, key: seq<byte>, payload: seq<byte>) {
    predicate Valid() {
      Encodable(fin, opcode, masked, key, payload) && LengthFits(code, |payload|)
    }

    function Encoded(): seq<byte>
      requires Valid()
    {
      CodedFrameBytes(code, fin, opcode, masked, key, payload)
    }

    /** The number of extended-length bytes. */
    function Ext(): nat {
      ExtendedSize(code)
    }

    /** The number of header bytes, masking key included. */
    function HeaderSize(): nat {
      2 + Ext() + |key|
    }

    /** The extended-length bytes. */
    function ExtBytes(): seq<byte> {
      BigEndianBytes(|payload|, Ext())
    }

    /** The frame the decoder returns for it. */
    function Decoded(): Frame {
      Frame(fin, opcode, payload)
    }
  }

  /** The bytes of a sequence of chunks, in order. */
  function Flatten(chunks: seq<seq<byte>>): seq<byte>
  {
    if chunks == [] then [] else chunks[0] + Flatten(chunks[1..])
  }

  /** The sum of the counts in a `Consumed` log. */
  function Sum(xs: seq<int>): int
  {
    if xs == [] then 0 else Sum(xs[..|xs| - 1]) + xs[|xs| - 1]
  }

  lemma SumAppend(xs: seq<int>, x: int)
    ensures Sum(xs + [x]) == Sum(xs) + x
  {
    assert (xs + [x])[..|xs|] == xs;
  }

  /** Where the parts of a frame sit in its bytes. */
  lemma Layout(w: Wire)
    requires w.Valid()
    ensures |w.Encoded()| == w.HeaderSize() + |w.payload|
    ensures w.Encoded()[2..2 + w.Ext()] == w.ExtBytes()
    ensures w.Encoded()[2 + w.Ext()..w.HeaderSize()] == w.key
    ensures w.Encoded()[w.HeaderSize()..] == w.payload
  {
    var F := w.Encoded();
    var first, second := F[0], F[1];
    assert F == [first, second] + w.ExtBytes() + w.key + w.payload;
    Parts([first, second], w.ExtBytes(), w.key, w.payload);
  }

  /** The parts of a concatenation of four sequences. */
  lemma Parts(a: seq<byte>, b: seq<byte>, c: seq<byte>, d: seq<byte>)
    ensures var f, i, j := a + b + c + d, |a| + |b|, |a| + |b| + |c|;
            f[|a|..i] == b && f[i..j] == c && f[j..] == d
  {
    var f, i, j := a + b + c + d, |a| + |b|, |a| + |b| + |c|;
    assert f == a + (b + (c + d));
    assert f[|a|..] == b + (c + d);
    assert f[i..] == c + d;
  }

  /** The header bytes of a frame. */
  lemma HeaderPart(w: Wire)
    requires w.Valid()
    ensures |w.Encoded()| == w.HeaderSize() + |w.payload|
    ensures w.Encoded()[0] % 2 == 1 <==> w.fin
    ensures w.Encoded()[0] as int / 16 == w.opcode
    ensures w.Encoded()[1] % 2 == 1 <==> w.masked
    ensures w.Encoded()[1] as int / 2 == w.code
  {
  }

  /** An extended-length byte of a frame. */
  lemma ExtByte(w: Wire, i: nat)
    requires w.Valid() && i < w.Ext()
    ensures |w.Encoded()| == w.HeaderSize() + |w.payload|
    ensures w.Encoded()[2 + i] == w.ExtBytes()[i]
  {
    Layout(w);
    assert w.Encoded()[2..2 + w.Ext()][i] == w.Encoded()[2 + i];
  }

  /** Where the payload sits in a frame's bytes. */
  lemma PayloadPart(w: Wire)
    requires w.Valid()
    ensures |w.Encoded()| == w.HeaderSize() + |w.payload|
    ensures w.Encoded()[w.HeaderSize()..w.HeaderSize() + |w.payload|] == w.payload
  {
    Layout(w);
  }

  /** Where the masking key sits in a frame's bytes. */
  lemma KeyPart(w: Wire)
    requires w.Valid()
    ensures |w.Encoded()| == w.HeaderSize() + |w.payload|
    ensures w.Encoded()[2 + w.Ext()..2 + w.Ext() + |w.key|] == w.key
  {
    Layout(w);
  }

  /** After the 7-bit length byte: FIN, opcode and MASK are known. */
  function Headed(w: Wire): ParseState {
    Initial.(fin := w.fin, opcode := w.opcode, masked := w.masked)
  }

  /** The state `i` bytes into the extended length. */
  function ExtState(w: Wire, i: nat): ParseState
    requires i <= w.Ext()
  {
    Headed(w).(payloadLength := BigEndian(w.ExtBytes()[..i]), lengthSizeInBytes := w.Ext() - i)
  }

  /** The state `j` bytes into the masking key. */
  function KeyState(w: Wire, j: nat): ParseState
    requires j <= |w.key|
  {
    Headed(w).(payloadLength := |w.payload|, maskingKey := w.key[..j])
  }

  /** The state `p` bytes into the payload. */
  function PayloadState(w: Wire, p: nat): ParseState
    requires p <= |w.payload|
  {
    Headed(w).(payloadLength := |w.payload| - p, maskingKey := w.key, payload := w.payload[..p])
  }

  /** The state once the frame is complete. */
  function DoneState(w: Wire): ParseState {
    Headed(w).(payloadLength := 0, maskingKey := w.key, payload := w.payload, frame := Some(w.Decoded()))
  }

  /**
   * The decoder, on field `field` with state `s`, has consumed the first `k`
   * bytes of the frame: each field occupies its part of the frame, and the
   * state (but for the buffer offset) is the one that part determines. It
   * is complete only at the frame's end, and after a frame with no payload
   * only if a byte was available after it.
   */
  predicate Tracks(w: Wire, rest: seq<byte>, k: nat, field: NextField, s: ParseState)
    requires w.Valid()
  {
    var s0, h, len := s.(bufferOffset := 0), w.HeaderSize(), |w.payload|;
    match field
    case Opcode => k == 0 && s0 == Initial
    case MaskedAndLen => k == 1 && s0 == Initial.(fin := w.fin, opcode := w.opcode)
    case ExtendedLen => 2 <= k < 2 + w.Ext() && s0 == ExtState(w, k - 2)
    case MaskingKey => 2 + w.Ext() <= k < h && s0 == KeyState(w, k - 2 - w.Ext())
    case Payload => h <= k && (k - h < len || k - h == len == 0) && s0 == PayloadState(w, k - h)
    case Complete => k == h + len && s0 == DoneState(w) && (len > 0 || rest != [])
  }

  /** From the buffer offset `o` on, the buffer followed by `more` is the rest of the frame followed by `rest`. */
  predicate Streams(w: Wire, rest: seq<byte>, active: seq<byte>, more: seq<byte>, o: nat, k: nat)
    requires w.Valid()
  {
    o <= |active| && k <= |w.Encoded()| && active[o..] + more == w.Encoded()[k..] + rest
  }

  /** The bytes a step takes from the buffer are the next bytes of the frame, and what follows matches. */
  lemma Window(a: seq<byte>, o: nat, more: seq<byte>, f: seq<byte>, k: nat, rest: seq<byte>, n: nat)
    requires o <= |a| && k <= |f| && a[o..] + more == f[k..] + rest
    requires n <= |a| - o && k + n <= |f|
    ensures a[o..o + n] == f[k..k + n]
    ensures a[o + n..] + more == f[k + n..] + rest
  {
    var l := a[o..] + more;
    assert l[..n] == a[o..o + n] && l[..n] == f[k..k + n];
    assert l[n..] == a[o + n..] + more && l[n..] == f[k + n..] + rest;
  }

  /** Taking `n` bytes `i` bytes into part `part` of the frame, which starts at `start`. */
  lemma Take(w: Wire, rest: seq<byte>, active: seq<byte>, more: seq<byte>, o: nat, k: nat, n: nat, start: nat, part: seq<byte>)
    requires w.Valid() && Streams(w, rest, active, more, o, k)
    requires start <= k && k + n <= start + |part| <= |w.Encoded()| && w.Encoded()[start..start + |part|] == part
    requires n <= |active| - o
    ensures active[o..o + n] == part[k - start..k - start + n]
    ensures Streams(w, rest, active, more, o + n, k + n)
  {
    var F := w.Encoded();
    Window(active, o, more, F, k, rest, n);
    assert F[k..k + n] == F[start..start + |part|][k - start..k - start + n];
  }

  /** Taking the next byte of the frame. */
  lemma TakeByte(w: Wire, rest: seq<byte>, active: seq<byte>, more: seq<byte>, o: nat, k: nat)
    requires w.Valid() && Streams(w, rest, active, more, o, k)
    requires o < |active| && k < |w.Encoded()|
    ensures active[o] == w.Encoded()[k]
    ensures Streams(w, rest, active, more, o + 1, k + 1)
  {
    var F := w.Encoded();
    Window(active, o, more, F, k, rest, 1);
    assert active[o] == active[o..o + 1][0];
  }

  /** One step of the decoder inside the frame keeps it on the frame, `k'` bytes in. */
  lemma StepFrame(w: Wire, rest: seq<byte>, active: seq<byte>, more: seq<byte>, field: NextField, s: ParseState, k: nat)
    returns (k': nat)
    requires w.Valid() && field != Complete && s.bufferOffset < |active|
    requires Tracks(w, rest, k, field, s) && Streams(w, rest, active, more, s.bufferOffset, k)
    ensures ParseNextField(active, field, s).Ok?
    ensures var st := ParseNextField(active, field, s).value;
            && Tracks(w, rest, k', st.next, st.state) && Streams(w, rest, active, more, st.state.bufferOffset, k')
            && st.state.bufferOffset - s.bufferOffset == k' - k
  {
    match field
    case Opcode => k' := StepOpcode(w, rest, active, more, s, k);
    case MaskedAndLen => k' := StepLength(w, rest, active, more, s, k);
    case ExtendedLen => k' := StepExtended(w, rest, active, more, s, k);
    case MaskingKey => k' := StepKey(w, rest, active, more, s, k);
    case Payload => k' := StepPayload(w, rest, active, more, s, k);
  }

  lemma StepOpcode(w: Wire, rest: seq<byte>, active: seq<byte>, more: seq<byte>, s: ParseState, k: nat) returns (k': nat)
    requires w.Valid() && s.bufferOffset < |active|
    requires Tracks(w, rest, k, Opcode, s) && Streams(w, rest, active, more, s.bufferOffset, k)
    ensures var st := ParseOpcode(active, s);
            && Tracks(w, rest, k', st.next, st.state) && Streams(w, rest, active, more, st.state.bufferOffset, k')
            && st.state.bufferOffset - s.bufferOffset == k' - k
  {
    HeaderPart(w);
    TakeByte(w, rest, active, more, s.bufferOffset, 0);
    k' := 1;
  }

  lemma StepLength(w: Wire, rest: seq<byte>, active: seq<byte>, more: seq<byte>, s: ParseState, k: nat) returns (k': nat)
    requires w.Valid() && s.bufferOffset < |active|
    requires Tracks(w, rest, k, MaskedAndLen, s) && Streams(w, rest, active, more, s.bufferOffset, k)
    ensures var st := ParseMaskedAndLen(active, s);
            && Tracks(w, rest, k', st.next, st.state) && Streams(w, rest, active, more, st.state.bufferOffset, k')
            && st.state.bufferOffset - s.bufferOffset == k' - k
  {
    HeaderPart(w);
    TakeByte(w, rest, active, more, s.bufferOffset, 1);
    k' := LengthByte(w, rest, active, s);
  }

  /** The state after the MASK and length byte. */
  lemma LengthByte(w: Wire, rest: seq<byte>, active: seq<byte>, s: ParseState) returns (k': nat)
    requires w.Valid() && s.bufferOffset < |active|
    requires s.(bufferOffset := 0) == Initial.(fin := w.fin, opcode := w.opcode)
    requires active[s.bufferOffset] % 2 == 1 <==> w.masked
    requires active[s.bufferOffset] as int / 2 == w.code
    ensures var st := ParseMaskedAndLen(active, s);
            Tracks(w, rest, k', st.next, st.state) && k' == 2 && st.state.bufferOffset == s.bufferOffset + 1
  {
    assert w.ExtBytes()[..0] == [];
    assert w.key[..0] == [];
    assert w.payload[..0] == [];
    k' := 2;
  }

  lemma StepExtended(w: Wire, rest: seq<byte>, active: seq<byte>, more: seq<byte>, s: ParseState, k: nat) returns (k': nat)
    requires w.Valid() && s.bufferOffset < |active|
    requires Tracks(w, rest, k, ExtendedLen, s) && Streams(w, rest, active, more, s.bufferOffset, k)
    ensures var st := ParseExtendedLength(active, s);
            && Tracks(w, rest, k', st.next, st.state) && Streams(w, rest, active, more, st.state.bufferOffset, k')
            && st.state.bufferOffset - s.bufferOffset == k' - k
  {
    ExtByte(w, k - 2);
    TakeByte(w, rest, active, more, s.bufferOffset, k);
    k' := ExtendedByte(w, rest, active, s, k);
  }

  /** The state after an extended-length byte, by the bytes read so far. */
  lemma ExtendedByte(w: Wire, rest: seq<byte>, active: seq<byte>, s: ParseState, k: nat) returns (k': nat)
    requires w.Valid() && s.bufferOffset < |active| && 2 <= k < 2 + w.Ext()
    requires s.(bufferOffset := 0) == ExtState(w, k - 2) && active[s.bufferOffset] == w.ExtBytes()[k - 2]
    ensures var st := ParseExtendedLength(active, s);
            Tracks(w, rest, k', st.next, st.state) && k' == k + 1 && st.state.bufferOffset == s.bufferOffset + 1
  {
    var i, ext := k - 2, w.ExtBytes();
    var st := ParseExtendedLength(active, s);
    Shifted(st.state.payloadLength, s.payloadLength, ext[i] as int);
    BigEndianStep(ext, i);
    assert st.state.(bufferOffset := 0) == ExtState(w, i + 1);
    if i + 1 == w.Ext() {
      ExtendedDone(w);
    }
    k' := k + 1;
  }

  /** A number whose quotient and remainder by 256 are given. */
  lemma Shifted(x: int, hi: int, lo: int)
    requires x % 256 == lo && x / 256 == hi
    ensures x == hi * 256 + lo
  {
  }

  /** One more byte of a big-endian number. */
  lemma BigEndianStep(bs: seq<byte>, i: nat)
    requires i < |bs|
    ensures BigEndian(bs[..i + 1]) == BigEndian(bs[..i]) * 256 + bs[i] as nat
  {
    assert bs[..i + 1][..i] == bs[..i];
  }

  /** Once all extended-length bytes are read, the state is the one at the start of the key. */
  lemma ExtendedDone(w: Wire)
    requires w.Valid() && w.Ext() > 0
    ensures ExtState(w, w.Ext()) == KeyState(w, 0)
    ensures !w.masked ==> ExtState(w, w.Ext()) == PayloadState(w, 0)
  {
    assert w.ExtBytes()[..w.Ext()] == w.ExtBytes();
    if w.Ext() == 2 {
      assert Pow256(2) == 0x1_0000;
    }
    BigEndianRoundTrip(|w.payload|, w.Ext());
    assert w.key[..0] == [] && w.payload[..0] == [];
  }

  lemma StepKey(w: Wire, rest: seq<byte>, active: seq<byte>, more: seq<byte>, s: ParseState, k: nat) returns (k': nat)
    requires w.Valid() && s.bufferOffset < |active|
    requires Tracks(w, rest, k, MaskingKey, s) && Streams(w, rest, active, more, s.bufferOffset, k)
    ensures ParseMaskingKey(active, s).Ok?
    ensures var st := ParseMaskingKey(active, s).value;
            && Tracks(w, rest, k', st.next, st.state) && Streams(w, rest, active, more, st.state.bufferOffset, k')
            && st.state.bufferOffset - s.bufferOffset == k' - k
  {
    KeyPart(w);
    var j := k - 2 - w.Ext();
    var n := Min(|active| - s.bufferOffset, 4 - j);
    Take(w, rest, active, more, s.bufferOffset, k, n, 2 + w.Ext(), w.key);
    KeyBytes(w, rest, active, s, j);
    k' := k + n;
  }

  /** The state after taking masking-key bytes, by the key bytes read so far. */
  lemma KeyBytes(w: Wire, rest: seq<byte>, active: seq<byte>, s: ParseState, j: nat)
    requires w.Valid() && s.bufferOffset < |active| && j < |w.key|
    requires s.(bufferOffset := 0) == KeyState(w, j)
    requires var n := Min(|active| - s.bufferOffset, 4 - j);
             active[s.bufferOffset..s.bufferOffset + n] == w.key[j..j + n]
    ensures ParseMaskingKey(active, s).Ok?
    ensures var st := ParseMaskingKey(active, s).value;
            Tracks(w, rest, 2 + w.Ext() + j + (st.state.bufferOffset - s.bufferOffset), st.next, st.state)
  {
    var n := Min(|active| - s.bufferOffset, 4 - j);
    assert w.key[..j] + w.key[j..j + n] == w.key[..j + n];
    if j + n == 4 {
      assert w.key[..j + n] == w.key;
      assert w.payload[..0] == [];
    }
  }

  lemma StepPayload(w: Wire, rest: seq<byte>, active: seq<byte>, more: seq<byte>, s: ParseState, k: nat) returns (k': nat)
    requires w.Valid() && s.bufferOffset < |active|
    requires Tracks(w, rest, k, Payload, s) && Streams(w, rest, active, more, s.bufferOffset, k)
    ensures var st := ParsePayload(active, s);
            && Tracks(w, rest, k', st.next, st.state) && Streams(w, rest, active, more, st.state.bufferOffset, k')
            && st.state.bufferOffset - s.bufferOffset == k' - k
  {
    PayloadPart(w);
    var p, o := k - w.HeaderSize(), s.bufferOffset;
    var n := Min(|active| - o, |w.payload| - p);
    Take(w, rest, active, more, o, k, n, w.HeaderSize(), w.payload);
    if |w.payload| == 0 {
      assert active[o..] + more == rest;
    }
    k' := PayloadBytes(w, rest, active, s, k);
  }

  /** The state after taking payload bytes, by the payload bytes read so far. */
  lemma PayloadBytes(w: Wire, rest: seq<byte>, active: seq<byte>, s: ParseState, k: nat) returns (k': nat)
    requires w.Valid() && s.bufferOffset < |active| && w.HeaderSize() <= k
    requires var p := k - w.HeaderSize(); p < |w.payload| || p == |w.payload| == 0
    requires s.(bufferOffset := 0) == PayloadState(w, k - w.HeaderSize())
    requires var p := k - w.HeaderSize(); var n := Min(|active| - s.bufferOffset, |w.payload| - p);
             active[s.bufferOffset..s.bufferOffset + n] == w.payload[p..p + n]
    requires |w.payload| == 0 ==> rest != []
    ensures var st := ParsePayload(active, s);
            Tracks(w, rest, k', st.next, st.state) && k' == k + Min(|active| - s.bufferOffset, |w.payload| - (k - w.HeaderSize()))
            && st.state.bufferOffset - s.bufferOffset == k' - k
  {
    var p := k - w.HeaderSize();
    var n := Min(|active| - s.bufferOffset, |w.payload| - p);
    assert w.payload[..p] + w.payload[p..p + n] == w.payload[..p + n];
    if p + n == |w.payload| {
      assert w.payload[..p + n] == w.payload;
    }
    k' := k + n;
  }

  /** The inner loop keeps the decoder on the frame: it stops where the frame is complete or the buffer ends. */
  lemma {:induction false} DrainFrame(w: Wire, rest: seq<byte>, active: seq<byte>, more: seq<byte>, field: NextField, s: ParseState, k: nat)
    returns (k': nat)
    requires w.Valid() && s.bufferOffset <= |active|
    requires Tracks(w, rest, k, field, s) && Streams(w, rest, active, more, s.bufferOffset, k)
    ensures Drain(active, field, s).Ok?
    ensures var st := Drain(active, field, s).value;
            && Tracks(w, rest, k', st.next, st.state) && Streams(w, rest, active, more, st.state.bufferOffset, k')
            && st.state.bufferOffset - s.bufferOffset == k' - k
    decreases |active| - s.bufferOffset, 5 - Rank(field)
  {
    if field == Complete || s.bufferOffset >= |active| {
      k' := k;
    } else {
      var k1 := StepFrame(w, rest, active, more, field, s, k);
      var st := ParseNextField(active, field, s).value;
      k' := DrainFrame(w, rest, active, more, st.next, st.state, k1);
    }
  }

  /** Only a frame with no payload can leave the decoder short of bytes, at its very end. */
  lemma Exhausted(w: Wire, rest: seq<byte>, field: NextField, s: ParseState, k: nat)
    requires w.Valid() && field != Complete && Tracks(w, rest, k, field, s)
    requires k == |w.Encoded()|
    ensures field == Payload && |w.payload| == 0
  {
    PayloadPart(w);
  }

  /** A complete frame carries the frame's FIN, opcode and payload. */
  lemma Completed(w: Wire, rest: seq<byte>, k: nat, s: ParseState)
    requires w.Valid() && Tracks(w, rest, k, Complete, s)
    ensures s.frame == Some(w.Decoded()) && k == |w.Encoded()|
  {
    PayloadPart(w);
  }

  /**
   * What the outer loop delivers from a point `k` bytes into the frame,
   * with `consumed` the `Consumed` log at that point: with a payload, or
   * with bytes after the frame, it returns the frame, keeps the bytes after
   * it and reports the rest of the frame as consumed; otherwise it waits
   * for input.
   */
  predicate Delivers(w: Wire, rest: seq<byte>, r: (Outcome, Conn), consumed: seq<int>, k: nat)
    requires w.Valid()
  {
    if |w.payload| > 0 || rest != [] then
      && r.0 == Received(w.Decoded())
      && r.1.active + Flatten(r.1.chunks) == rest
      && Sum(r.1.consumed) == Sum(consumed) + |w.Encoded()| - k
    else
      r.0 == Starved
  }

  /** The outer loop, from a point `k` bytes into the frame, delivers the frame. */
  lemma {:induction false} LoopFrame(w: Wire, rest: seq<byte>, field: NextField, s: ParseState, c: Conn, k: nat)
    requires w.Valid() && s.bufferOffset <= |c.active|
    requires Tracks(w, rest, k, field, s) && Streams(w, rest, c.active, Flatten(c.chunks), s.bufferOffset, k)
    requires field == Complete ==> s.frame.Some?
    ensures Delivers(w, rest, Loop(field, s, c), c.consumed, k)
    decreases |c.chunks|, (if s.bufferOffset < |c.active| then 1 else 0), (if field == Complete then 0 else 1), 1
  {
    if field == Complete {
      LoopDone(w, rest, s, c, k);
    } else if s.bufferOffset >= |c.active| && c.chunks == [] {
      LoopStarved(w, rest, field, s, c, k);
    } else {
      LoopRound(w, rest, field, s, c, k);
    }
  }

  /** A complete frame is returned, with the bytes after it. */
  lemma LoopDone(w: Wire, rest: seq<byte>, s: ParseState, c: Conn, k: nat)
    requires w.Valid() && s.bufferOffset <= |c.active|
    requires Tracks(w, rest, k, Complete, s) && Streams(w, rest, c.active, Flatten(c.chunks), s.bufferOffset, k)
    ensures s.frame.Some? && Delivers(w, rest, Loop(Complete, s, c), c.consumed, k)
  {
    Completed(w, rest, k, s);
    assert w.Encoded()[k..] == [];
  }

  /** With no input left, the decoder is at the end of a frame with no payload and nothing after it. */
  lemma LoopStarved(w: Wire, rest: seq<byte>, field: NextField, s: ParseState, c: Conn, k: nat)
    requires w.Valid() && s.bufferOffset >= |c.active| && c.chunks == [] && field != Complete
    requires Tracks(w, rest, k, field, s) && Streams(w, rest, c.active, Flatten(c.chunks), s.bufferOffset, k)
    ensures Delivers(w, rest, Loop(field, s, c), c.consumed, k)
  {
    assert c.active[s.bufferOffset..] + Flatten(c.chunks) == [];
    Exhausted(w, rest, field, s, k);
  }

  /** A round of the outer loop, and the outer loop from where the round stops. */
  lemma {:induction false} LoopRound(w: Wire, rest: seq<byte>, field: NextField, s: ParseState, c: Conn, k: nat)
    requires w.Valid() && s.bufferOffset <= |c.active| && field != Complete
    requires s.bufferOffset < |c.active| || c.chunks != []
    requires Tracks(w, rest, k, field, s) && Streams(w, rest, c.active, Flatten(c.chunks), s.bufferOffset, k)
    ensures Delivers(w, rest, Loop(field, s, c), c.consumed, k)
    decreases |c.chunks|, (if s.bufferOffset < |c.active| then 1 else 0), 1, 0
  {
    var k1, st, c1 := RoundStep(w, rest, field, s, c, k);
    LoopFrame(w, rest, st.next, st.state, c1, k1);
    DeliversShift(w, rest, Loop(st.next, st.state, c1), c.consumed, c1.consumed, k, k1);
  }

  /**
   * A round of the outer loop inside the frame: the outer loop goes on from
   * field `st.next`, state `st.state` and connection `c1`, `k1` bytes into
   * the frame, with the bytes advanced reported, and closer to its end.
   */
  lemma RoundStep(w: Wire, rest: seq<byte>, field: NextField, s: ParseState, c: Conn, k: nat)
    returns (k1: nat, st: Step, c1: Conn)
    requires w.Valid() && s.bufferOffset <= |c.active| && field != Complete
    requires s.bufferOffset < |c.active| || c.chunks != []
    requires Tracks(w, rest, k, field, s) && Streams(w, rest, c.active, Flatten(c.chunks), s.bufferOffset, k)
    ensures st.state.bufferOffset <= |c1.active| && (st.next == Complete ==> st.state.frame.Some?)
    ensures Tracks(w, rest, k1, st.next, st.state) && Streams(w, rest, c1.active, Flatten(c1.chunks), st.state.bufferOffset, k1)
    ensures Sum(c1.consumed) == Sum(c.consumed) + k1 - k
    ensures Loop(field, s, c) == Loop(st.next, st.state, c1)
    ensures || |c1.chunks| < |c.chunks|
            || (&& |c1.chunks| == |c.chunks| && s.bufferOffset < |c.active|
                && (st.state.bufferOffset >= |c1.active| || st.next == Complete))
  {
    var active, chunks, s0 := Round(field, s, c);
    k1, st := Advance(w, rest, field, s, c, k, active, chunks, s0);
    RoundLoop(field, s, c, active, chunks, s0, st);
    c1 := Conn(active, chunks, c.consumed + [st.state.bufferOffset - s0.bufferOffset]);
  }

  /** What is delivered from `k1` bytes in, with `consumed1` reported, is what is delivered from `k` bytes in with `consumed`. */
  lemma DeliversShift(w: Wire, rest: seq<byte>, r: (Outcome, Conn), consumed: seq<int>, consumed1: seq<int>, k: nat, k1: nat)
    requires w.Valid() && Delivers(w, rest, r, consumed1, k1) && Sum(consumed1) == Sum(consumed) + k1 - k
    ensures Delivers(w, rest, r, consumed, k)
  {
  }

  /**
   * One round of the outer loop inside the frame, on the buffer `active`,
   * the chunks `chunks` and the state `s0` that `Round` names: the inner
   * loop does not throw, the decoder stays on the frame, and the round
   * brings the outer loop closer to its end.
   */
  lemma Advance(w: Wire, rest: seq<byte>, field: NextField, s: ParseState, c: Conn, k: nat,
                active: seq<byte>, chunks: seq<seq<byte>>, s0: ParseState) returns (k1: nat, st: Step)
    requires w.Valid() && s.bufferOffset <= |c.active| && field != Complete
    requires s.bufferOffset < |c.active| || c.chunks != []
    requires var read := s.bufferOffset >= |c.active|;
             && active == (if read then c.chunks[0] else c.active)
             && chunks == (if read then c.chunks[1..] else c.chunks)
             && s0 == (if read then s.(bufferOffset := 0) else s)
    requires Tracks(w, rest, k, field, s) && Streams(w, rest, c.active, Flatten(c.chunks), s.bufferOffset, k)
    ensures Drain(active, field, s0) == Ok(st)
    ensures st.state.bufferOffset <= |active| && (st.next == Complete ==> st.state.frame.Some?)
    ensures Tracks(w, rest, k1, st.next, st.state) && Streams(w, rest, active, Flatten(chunks), st.state.bufferOffset, k1)
    ensures Sum(c.consumed + [st.state.bufferOffset - s0.bufferOffset]) == Sum(c.consumed) + k1 - k
    ensures || |chunks| < |c.chunks|
            || (&& |chunks| == |c.chunks| && s.bufferOffset < |c.active|
                && (st.state.bufferOffset >= |active| || st.next == Complete))
  {
    if s.bufferOffset >= |c.active| {
      assert c.active[s.bufferOffset..] == [];
      assert active[0..] + Flatten(chunks) == Flatten(c.chunks);
    }
    k1 := DrainRound(w, rest, field, s0, active, chunks, c.consumed, k);
    st := Drain(active, field, s0).value;
  }

  /** The inner loop of a round reports to `Consumed` the bytes of the frame it went through. */
  lemma DrainRound(w: Wire, rest: seq<byte>, field: NextField, s0: ParseState, active: seq<byte>, chunks: seq<seq<byte>>,
                   consumed: seq<int>, k: nat) returns (k1: nat)
    requires w.Valid() && s0.bufferOffset <= |active|
    requires Tracks(w, rest, k, field, s0) && Streams(w, rest, active, Flatten(chunks), s0.bufferOffset, k)
    ensures Drain(active, field, s0).Ok?
    ensures var st := Drain(active, field, s0).value;
            && Tracks(w, rest, k1, st.next, st.state) && Streams(w, rest, active, Flatten(chunks), st.state.bufferOffset, k1)
            && Sum(consumed + [st.state.bufferOffset - s0.bufferOffset]) == Sum(consumed) + k1 - k
  {
    k1 := DrainFrame(w, rest, active, Flatten(chunks), field, s0, k);
    var st := Drain(active, field, s0).value;
    SumAppend(consumed, st.state.bufferOffset - s0.bufferOffset);
  }

  /**
   * The buffer, the remaining chunks and the state a round of the outer
   * loop runs the inner loop on; when the inner loop does not throw, the
   * outer loop goes on from where it stopped.
   */
  lemma Round(field: NextField, s: ParseState, c: Conn) returns (active: seq<byte>, chunks: seq<seq<byte>>, s0: ParseState)
    requires s.bufferOffset <= |c.active| && field != Complete
    requires s.bufferOffset < |c.active| || c.chunks != []
    ensures var read := s.bufferOffset >= |c.active|;
            && active == (if read then c.chunks[0] else c.active)
            && chunks == (if read then c.chunks[1..] else c.chunks)
            && s0 == (if read then s.(bufferOffset := 0) else s)
  {
    var read := s.bufferOffset >= |c.active|;
    active := if read then c.chunks[0] else c.active;
    chunks := if read then c.chunks[1..] else c.chunks;
    s0 := if read then s.(bufferOffset := 0) else s;
  }

  /** When the inner loop of a round does not throw, the outer loop goes on from where it stopped. */
  lemma RoundLoop(field: NextField, s: ParseState, c: Conn, active: seq<byte>, chunks: seq<seq<byte>>, s0: ParseState, st: Step)
    requires s.bufferOffset <= |c.active| && field != Complete
    requires s.bufferOffset < |c.active| || c.chunks != []
    requires var read := s.bufferOffset >= |c.active|;
             && active == (if read then c.chunks[0] else c.active)
             && chunks == (if read then c.chunks[1..] else c.chunks)
             && s0 == (if read then s.(bufferOffset := 0) else s)
    requires Drain(active, field, s0) == Ok(st)
    ensures Loop(field, s, c) == Loop(st.next, st.state, Conn(active, chunks, c.consumed + [st.state.bufferOffset - s0.bufferOffset]))
  {
  }

  /**
   * `ReceiveAsync` on a frame, whatever chunks its bytes come in: given a
   * buffer and chunks that hold the frame's bytes followed by `rest`, it
   * returns that frame, leaves exactly `rest` in the buffer and the
   * remaining chunks, and reports exactly the frame's bytes as consumed. A
   * frame with no payload and nothing after it leaves it waiting instead.
   */
  lemma ReceiveFrame(w: Wire, rest: seq<byte>, c: Conn)
    requires w.Valid() && c.active + Flatten(c.chunks) == w.Encoded() + rest
    ensures Delivers(w, rest, Receive(c), c.consumed, 0)
  {
    assert c.active[0..] == c.active;
    LoopFrame(w, rest, Opcode, Initial, c, 0);
  }
}
