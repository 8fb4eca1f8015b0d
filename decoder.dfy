/**
 * The step functions of the frame decoder (WebSocketConnection.cs): each
 * `Parse*` reads from `_activeBuffer` at `state.BufferOffset`, updates the
 * `ParseState` it is given by reference and names the field to read next.
 * Here the buffer is given by its bytes, the struct is passed in and the
 * updated struct is returned with the next field.
 *
 * `ByteBuffer.Concat` is not part of this model; the masking key and the
 * payload are modelled by their bytes, so appending a slice to them is
 * concatenation of byte sequences.
 */
module Decoder {
  import opened Bytes
  import opened Frames

  /** What a step returns: the next field and the updated state. */
  datatype Step = Step(next: NextField, state: ParseState)

  function Min(a: int, b: int): int {
    if a <= b then a else b
  }

  /**
   * `ParseOpcode`: consumes one byte, takes FIN from its low bit and the
   * opcode from its high nibble, and moves on to the MASK and length byte.
   */
  function ParseOpcode(active: seq<byte>, s: ParseState): (r: Step)
    requires s.bufferOffset < |active|
    ensures r.next == MaskedAndLen && r.state.bufferOffset == s.bufferOffset + 1
    ensures r.state.fin <==> active[s.bufferOffset] % 2 == 1
    ensures active[s.bufferOffset] as int == 16 * r.state.opcode + active[s.bufferOffset] as int % 16
    ensures r.state.(fin := s.fin, opcode := s.opcode, bufferOffset := s.bufferOffset) == s
  {
    var byt := active[s.bufferOffset];
    Step(MaskedAndLen, s.(bufferOffset := s.bufferOffset + 1, fin := LowBit(byt), opcode := HighNibble(byt)))
  }

  /**
   * `ParseMaskedAndLen`: consumes one byte and takes MASK from its low bit
   * and the 7-bit length from the rest. A length of 127 announces eight
   * extended-length bytes and 126 announces two; any other length is the
   * payload length, and the masking key or the payload follows.
   */
  function ParseMaskedAndLen(active: seq<byte>, s: ParseState): (r: Step)
    requires s.bufferOffset < |active|
    ensures r.state.bufferOffset == s.bufferOffset + 1
    ensures r.state.masked <==> active[s.bufferOffset] % 2 == 1
    ensures var len := active[s.bufferOffset] as int / 2;
            && (len >= 126 ==> r.next == ExtendedLen && r.state.lengthSizeInBytes == ExtendedSize(len)
                                 && r.state.payloadLength == s.payloadLength)
            && (len < 126 ==> r.next == (if r.state.masked then MaskingKey else Payload)
                                && r.state.payloadLength == len && r.state.lengthSizeInBytes == s.lengthSizeInBytes)
    ensures r.state.(masked := s.masked, payloadLength := s.payloadLength, lengthSizeInBytes := s.lengthSizeInBytes,
                     bufferOffset := s.bufferOffset) == s
  {
    var byt := active[s.bufferOffset];
    var s1 := s.(bufferOffset := s.bufferOffset + 1, masked := LowBit(byt));
    var len := UpperSeven(byt);
    if len == 127 then Step(ExtendedLen, s1.(lengthSizeInBytes := 8))
    else if len == 126 then Step(ExtendedLen, s1.(lengthSizeInBytes := 2))
    else Step(if s1.masked then MaskingKey else Payload, s1.(payloadLength := len))
  }

  /**
   * `ParseExtendedLength`: consumes one byte and shifts it into the payload
   * length from below (`ExtendedLength` states what several steps amount
   * to); once the announced number of bytes has been read, the masking key
   * or the payload follows.
   */
  function ParseExtendedLength(active: seq<byte>, s: ParseState): (r: Step)
    requires s.bufferOffset < |active|
    ensures r.state.bufferOffset == s.bufferOffset + 1
    ensures r.state.payloadLength % 256 == active[s.bufferOffset] as int && r.state.payloadLength / 256 == s.payloadLength
    ensures r.state.lengthSizeInBytes == s.lengthSizeInBytes - 1
    ensures r.next == ExtendedLen <==> r.state.lengthSizeInBytes != 0
    ensures r.next != ExtendedLen ==> r.next == (if s.masked then MaskingKey else Payload)
    ensures r.state.(payloadLength := s.payloadLength, lengthSizeInBytes := s.lengthSizeInBytes, bufferOffset := s.bufferOffset) == s
  {
    var byt := active[s.bufferOffset];
    var s1 := s.(bufferOffset := s.bufferOffset + 1, payloadLength := s.payloadLength * 256 + byt as nat,
                 lengthSizeInBytes := s.lengthSizeInBytes - 1);
    if s1.lengthSizeInBytes == 0 then Step(if s1.masked then MaskingKey else Payload, s1)
    else Step(ExtendedLen, s1)
  }

  /**
   * `ParseMaskingKey`: appends as many of the bytes still available as the
   * 4-byte key still lacks, and moves on to the payload once the key is
   * complete. A key already longer than 4 bytes would make the slice's
   * count negative, which the `ArraySegment` constructor rejects.
   */
  function ParseMaskingKey(active: seq<byte>, s: ParseState): (r: Result<Step>)
    requires s.bufferOffset < |active|
    ensures r.Ok? <==> |s.maskingKey| <= 4
    ensures r.Throws? ==> r.error == ArgumentOutOfRange
    ensures r.Ok? ==>
              var o, o' := s.bufferOffset, r.value.state.bufferOffset;
              && o' - o == Min(|active| - o, 4 - |s.maskingKey|)
              && r.value.state.maskingKey == s.maskingKey + active[o..o']
              && |r.value.state.maskingKey| <= 4
              && (r.value.next == Payload <==> |r.value.state.maskingKey| == 4)
              && (r.value.next != Payload ==> r.value.next == MaskingKey)
              && r.value.state.(maskingKey := s.maskingKey, bufferOffset := o) == s
  {
    var bytesLeft := 4 - |s.maskingKey|;
    var bytesToRead := Min(|active| - s.bufferOffset, bytesLeft);
    if bytesToRead < 0 then Throws(ArgumentOutOfRange)
    else
      var s1 := s.(maskingKey := s.maskingKey + active[s.bufferOffset..s.bufferOffset + bytesToRead],
                   bufferOffset := s.bufferOffset + bytesToRead);
      Ok(Step(if |s1.maskingKey| == 4 then Payload else MaskingKey, s1))
  }

  /**
   * `ParsePayload`: appends as many payload bytes as are both available and
   * still due. When none are still due the frame is complete: it carries
   * FIN, the opcode and all payload bytes taken, in order.
   */
  function ParsePayload(active: seq<byte>, s: ParseState): (r: Step)
    requires s.bufferOffset < |active|
    ensures var o, o' := s.bufferOffset, r.state.bufferOffset;
            && o' - o == Min(|active| - o, s.payloadLength)
            && o' <= |active|
            && r.state.payload == s.payload + active[o..o']
            && r.state.payloadLength == s.payloadLength - (o' - o)
    ensures r.next == Complete <==> s.payloadLength <= |active| - s.bufferOffset
    ensures r.next != Complete ==> r.next == Payload && r.state.frame == s.frame
    ensures r.next == Complete ==> r.state.frame == Some(Frame(s.fin, s.opcode, r.state.payload))
    ensures r.state.(payload := s.payload, bufferOffset := s.bufferOffset, payloadLength := s.payloadLength, frame := s.frame) == s
  {
    var bytesToRead := Min(|active| - s.bufferOffset, s.payloadLength);
    var s1 := s.(payload := s.payload + active[s.bufferOffset..s.bufferOffset + bytesToRead],
                 bufferOffset := s.bufferOffset + bytesToRead,
                 payloadLength := s.payloadLength - bytesToRead);
    if s1.payloadLength == 0 then Step(Complete, s1.(frame := Some(Frame(s1.fin, s1.opcode, s1.payload))))
    else Step(Payload, s1)
  }

  /**
   * `ParseNextField`: dispatches on the field. Dispatching on `Complete`
   * throws `InvalidOperationException`. Every step moves forward in the
   * order of a frame's fields, and one that stays on its field consumes at
   * least one byte; no step reads past the buffer.
   */
  function ParseNextField(active: seq<byte>, field: NextField, s: ParseState): (r: Result<Step>)
    requires s.bufferOffset < |active|
    ensures field == Complete ==> r == Throws(InvalidOperation)
    ensures field != Complete && field != MaskingKey ==> r.Ok?
    ensures r.Ok? ==> s.bufferOffset <= r.value.state.bufferOffset <= |active|
    ensures r.Ok? ==> Rank(field) < Rank(r.value.next) || (field == r.value.next && s.bufferOffset < r.value.state.bufferOffset)
    ensures r.Ok? && r.value.next == Complete ==> r.value.state.frame.Some?
  {
    match field
    case Opcode => Ok(ParseOpcode(active, s))
    case MaskedAndLen => Ok(ParseMaskedAndLen(active, s))
    case ExtendedLen => Ok(ParseExtendedLength(active, s))
    case MaskingKey => ParseMaskingKey(active, s)
    case Payload => Ok(ParsePayload(active, s))
    case Complete => Throws(InvalidOperation)
  }

  /**
   * The inner loop of `ReceiveAsync`: steps through the fields while the
   * frame is not complete and the buffer still has bytes. It stops complete
   * or with the whole buffer consumed, or with the step's exception.
   */
  function Drain(active: seq<byte>, field: NextField, s: ParseState): (r: Result<Step>)
    requires s.bufferOffset <= |active|
    ensures r.Ok? ==> r.value.next == Complete || r.value.state.bufferOffset == |active|
    ensures r.Ok? ==> s.bufferOffset <= r.value.state.bufferOffset <= |active|
    ensures r.Ok? && r.value.next == Complete && field != Complete ==> r.value.state.frame.Some?
    decreases |active| - s.bufferOffset, 5 - Rank(field)
  {
    if field == Complete || s.bufferOffset >= |active| then Ok(Step(field, s))
    else
      match ParseNextField(active, field, s)
      case Throws(e) => Throws(e)
      case Ok(st) => Drain(active, st.next, st.state)
  }

  /**
   * Several `ParseExtendedLength` steps: starting from payload length `p`,
   * reading the bytes `bs` leaves `p` shifted left by their number of bytes
   * plus their big-endian value.
   */
  lemma {:induction false} ExtendedLength(active: seq<byte>, s: ParseState, bs: seq<byte>)
    requires s.bufferOffset + |bs| <= |active| && active[s.bufferOffset..s.bufferOffset + |bs|] == bs
    requires |bs| < s.lengthSizeInBytes
    ensures Extended(active, s, |bs|).payloadLength == s.payloadLength * Pow256(|bs|) + BigEndian(bs)
    ensures Extended(active, s, |bs|).lengthSizeInBytes == s.lengthSizeInBytes - |bs|
    ensures Extended(active, s, |bs|).bufferOffset == s.bufferOffset + |bs|
  {
    if bs != [] {
      var n := |bs| - 1;
      assert active[s.bufferOffset..s.bufferOffset + n] == bs[..n];
      ExtendedLength(active, s, bs[..n]);
      var prev := Extended(active, s, n);
      assert active[prev.bufferOffset] == bs[n];
      var p, q, b := s.payloadLength, BigEndian(bs[..n]), bs[n] as nat;
      assert prev.payloadLength == p * Pow256(n) + q;
      assert BigEndian(bs) == q * 256 + b;
      var m := Pow256(n);
      assert Pow256(|bs|) == 256 * m;
      assert (p * m + q) * 256 == p * (256 * m) + q * 256 by {
        assert (p * m) * 256 == p * (256 * m);
      }
    }
  }

  /** The state after `n` `ParseExtendedLength` steps that all stay on the extended length. */
  function Extended(active: seq<byte>, s: ParseState, n: nat): (r: ParseState)
    requires s.bufferOffset + n <= |active| && n < s.lengthSizeInBytes
    ensures r.bufferOffset == s.bufferOffset + n
  {
    if n == 0 then s
    else
      var prev := Extended(active, s, n - 1);
      var st := ParseExtendedLength(active, prev);
      st.state
  }
}
