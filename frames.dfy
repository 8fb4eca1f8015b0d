/**
 * The values the frame decoder of `WebSocketConnection` (WebSocketConnection.cs)
 * works with: the `NextField` states, the `ParseState` struct, the
 * `WebSocketFrame` it produces and the `WebSocketOpcode` numbers, together
 * with the bit layout of the two header bytes as the decoder reads them and
 * a reference encoder for frames in that layout.
 *
 * The decoder does not read the header bits where section 5.2 of RFC 6455
 * puts them. It takes FIN from the lowest bit of the first byte (not the
 * highest) and the opcode from its high nibble (not the low one), and it
 * takes MASK from the lowest bit of the second byte and the 7-bit payload
 * length from its upper seven bits. The model reads the bits as the decoder
 * does; `RfcLayoutDiffers` shows one byte on which the two readings disagree.
 */
module Frames {
  import opened Bytes

  /** `WebSocketOpcode`: the named opcode values (a cast from any nibble is allowed). */
  const Continuation := 0x0
  const Text := 0x1
  const Binary := 0x2
  const Close := 0x8
  const Ping := 0x9
  const Pong := 0xA

  /** `NextField`: the part of a frame the decoder reads next. */
  datatype NextField = Opcode | Payload | MaskedAndLen | ExtendedLen | MaskingKey | Complete

  /** The position of a field in the order a frame's parts come in. */
  function Rank(f: NextField): (r: nat)
    ensures r <= 5 && (r == 5 <==> f == Complete)
  {
    match f
    case Opcode => 0
    case MaskedAndLen => 1
    case ExtendedLen => 2
    case MaskingKey => 3
    case Payload => 4
    case Complete => 5
  }

  datatype Option<T> = None | Some(value: T)

  /** `WebSocketFrame`: the FIN flag, the opcode and the payload bytes. */
  datatype Frame = Frame(endOfMessage: bool, opcode: int, payload: seq<byte>)

  /**
   * `ParseState`. The two `ByteBuffer` fields are modelled by their bytes,
   * and `PayloadLength` by an unbounded natural number.
   */
  datatype ParseState = ParseState(
    fin: bool,
    opcode: int,
    payloadLength: nat,
    masked: bool,
    maskingKey: seq<byte>,
    payload: seq<byte>,
    bufferOffset: nat,
    lengthSizeInBytes: int,
    frame: Option<Frame>)

  /** `new ParseState()`: every field at its default value. */
  const Initial := ParseState(false, 0, 0, false, [], [], 0, 0, None)

  /*
   * The three bit fields the decoder extracts, written with the arithmetic
   * they amount to on a byte: masking with `0x01` keeps the remainder by 2,
   * masking with `0xF0` and shifting right by 4 is division by 16, and
   * masking with `0xFE` and shifting right by 1 is division by 2.
   */

  /** `(byt & 0x01) != 0`: FIN in the first header byte, MASK in the second. */
  predicate LowBit(b: byte) {
    b % 2 == 1
  }

  /** `(byt & 0xF0) >> 4`: the opcode nibble of the first header byte. */
  function HighNibble(b: byte): int {
    b as int / 16
  }

  /** `(byt & 0xFE) >> 1`: the 7-bit payload length of the second header byte. */
  function UpperSeven(b: byte): int {
    b as int / 2
  }

  /**
   * The first byte `0x11` that frames of this layout start with: the decoder
   * reads FIN and a Text opcode, where section 5.2 of RFC 6455 reads FIN
   * clear, the RSV3 bit set and a Text opcode in the low nibble.
   */
  lemma RfcLayoutDiffers()
    ensures LowBit(0x11) && HighNibble(0x11) == Text
    ensures var rfcFin, rfcRsv3, rfcOpcode := 0x11 >= 0x80, (0x11 / 16) % 2 == 1, 0x11 % 16;
            !rfcFin && rfcRsv3 && rfcOpcode == Text
  {
  }

  /** `256` to the power `n`. */
  function Pow256(n: nat): (r: nat)
    ensures r >= 1
  {
    if n == 0 then 1 else 256 * Pow256(n - 1)
  }

  /** The number the bytes spell in big-endian order. */
  function BigEndian(bs: seq<byte>): nat
  {
    if bs == [] then 0 else BigEndian(bs[..|bs| - 1]) * 256 + bs[|bs| - 1] as nat
  }

  /** The `n` low bytes of `x`, most significant first. */
  function BigEndianBytes(x: nat, n: nat): (r: seq<byte>)
    ensures |r| == n
  {
    if n == 0 then [] else BigEndianBytes(x / 256, n - 1) + [(x % 256) as byte]
  }

  /** Big-endian bytes read back as the number they were written from. */
  lemma {:induction false} BigEndianRoundTrip(x: nat, n: nat)
    requires x < Pow256(n)
    ensures BigEndian(BigEndianBytes(x, n)) == x
  {
    if n > 0 {
      var r := BigEndianBytes(x, n);
      assert r[..n - 1] == BigEndianBytes(x / 256, n - 1);
      BigEndianRoundTrip(x / 256, n - 1);
    }
  }

  /** The bytes of a number below `256^n` are a number below `256^(n-1)`, shifted. */
  lemma {:induction false} BigEndianBound(bs: seq<byte>)
    ensures BigEndian(bs) < Pow256(|bs|)
  {
    if bs != [] {
      BigEndianBound(bs[..|bs| - 1]);
    }
  }

  /**
   * A 7-bit length field `code` that announces a payload of `len` bytes:
   * the length itself below 126, or 126 followed by a 2-byte length, or
   * 127 followed by an 8-byte length. The decoder accepts all of them,
   * including an extended length that would have fitted a shorter field.
   */
  predicate LengthFits(code: nat, len: nat) {
    || (code < 126 && code == len)
    || (code == 126 && len < 0x1_0000)
    || (code == 127 && len < Pow256(8))
  }

  /** The shortest 7-bit length field for a payload of `len` bytes. */
  function LengthCode(len: nat): (r: nat)
    ensures r < 128
    ensures len < Pow256(8) ==> LengthFits(r, len)
    ensures forall code :: LengthFits(code, len) ==> ExtendedSize(r) <= ExtendedSize(code)
  {
    if len < 126 then len else if len < 0x1_0000 then 126 else 127
  }

  /** The number of extended-length bytes that a 7-bit length field announces. */
  function ExtendedSize(code: nat): (r: nat)
    ensures r == 0 || r == 2 || r == 8
  {
    if code == 127 then 8 else if code == 126 then 2 else 0
  }

  /**
   * A frame the layout can carry: an opcode that fits a nibble, a payload
   * shorter than `2^64` bytes, and a 4-byte masking key when masked (no key
   * otherwise).
   */
  predicate Encodable(fin: bool, opcode: int, masked: bool, key: seq<byte>, payload: seq<byte>)
  {
    0 <= opcode < 16 && |payload| < Pow256(8) && |key| == (if masked then 4 else 0)
  }

  /**
   * The bytes of a frame in the layout the decoder reads, with the 7-bit
   * length field `code`: FIN and opcode, then MASK and `code`, then the
   * extended length if `code` announces one, then the masking key if
   * masked, then the payload.
   */
  function CodedFrameBytes(code: nat, fin: bool, opcode: int, masked: bool, key: seq<byte>, payload: seq<byte>): (r: seq<byte>)
    requires Encodable(fin, opcode, masked, key, payload) && LengthFits(code, |payload|)
    ensures |r| == 2 + ExtendedSize(code) + |key| + |payload|
    ensures LowBit(r[0]) == fin && HighNibble(r[0]) == opcode
    ensures LowBit(r[1]) == masked && UpperSeven(r[1]) == code
  {
    var first := (opcode * 16 + if fin then 1 else 0) as byte;
    var second := (code * 2 + if masked then 1 else 0) as byte;
    [first, second] + BigEndianBytes(|payload|, ExtendedSize(code)) + key + payload
  }

  /**
   * The bytes of a frame with the shortest length field, as the sample
   * program writes them.
   */
  function FrameBytes(fin: bool, opcode: int, masked: bool, key: seq<byte>, payload: seq<byte>): (r: seq<byte>)
    requires Encodable(fin, opcode, masked, key, payload)
    ensures |r| == 2 + ExtendedSize(LengthCode(|payload|)) + |key| + |payload|
    ensures LowBit(r[0]) == fin && HighNibble(r[0]) == opcode
    ensures LowBit(r[1]) == masked && UpperSeven(r[1]) == LengthCode(|payload|)
  {
    CodedFrameBytes(LengthCode(|payload|), fin, opcode, masked, key, payload)
  }
}
