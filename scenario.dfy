/**
 * The sample program AwaitableStreamSpelunk (Program.cs): two text frames
 * "Hello, World" and "Hello, again!" arrive in four writes, the first
 * frame's payload split across two of them and the second frame sharing a
 * write with the end of the first. Both calls to `ReceiveAsync` return
 * their frame. The UTF-8 encoding of the two strings is written out as
 * bytes.
 */
module Sample {
  import opened Bytes
  import opened Frames
  import opened Connection
  import opened Framing

  /** "Hello, World" in UTF-8. */
  const Payload1: seq<byte> := [72, 101, 108, 108, 111, 44, 32, 87, 111, 114, 108, 100]
  /** "Hello, again!" in UTF-8. */
  const Payload2: seq<byte> := [72, 101, 108, 108, 111, 44, 32, 97, 103, 97, 105, 110, 33]

  /** The four writes: the FIN and Text byte, the length byte, then the payload split as the sample splits it. */
  function Writes(): (r: seq<seq<byte>>)
    ensures Flatten(r) == [0x11, 24] + Payload1 + [0x11, 26] + Payload2
  {
    var w := [[0x11], [24], Payload1[..6], Payload1[6..] + [0x11, 26] + Payload2];
    assert Flatten(w[3..]) == w[3] + Flatten([]);
    assert Flatten(w[2..]) == w[2] + Flatten(w[3..]);
    assert Flatten(w[1..]) == w[1] + Flatten(w[2..]);
    assert Payload1[..6] + Payload1[6..] == Payload1;
    w
  }

  /** The sample: a connection over the four writes receives both messages, each a final text frame. */
  method Spelunk() returns (first: Outcome, second: Outcome)
    ensures first == Received(Frame(true, Text, Payload1))
    ensures second == Received(Frame(true, Text, Payload2))
  {
    var w1 := Wire(true, Text, false, 12, [], Payload1);
    var w2 := Wire(true, Text, false, 13, [], Payload2);
    assert w1.Encoded() == [0x11, 24] + Payload1;
    assert w2.Encoded() == [0x11, 26] + Payload2;
    var socket := new WebSocketConnection(Writes(), "foo");
    ReceiveFrame(w1, w2.Encoded(), Conn(socket.activeBuffer, socket.chunks, socket.consumed));
    first := socket.ReceiveAsync();
    ReceiveFrame(w2, [], Conn(socket.activeBuffer, socket.chunks, socket.consumed));
    second := socket.ReceiveAsync();
  }

  /**
   * A frame with no payload is returned only once a byte after it has
   * arrived: the inner loop dispatches on the payload field only while the
   * buffer has bytes, so with nothing after the frame the decoder waits.
   */
  lemma EmptyFrameAtEnd()
    ensures Receive(Conn([], [[0x11, 0]], [])).0 == Starved
    ensures Receive(Conn([], [[0x11, 0], [0x11]], [])).0 == Received(Frame(true, Text, []))
  {
    var w := Wire(true, Text, false, 0, [], []);
    assert w.Encoded() == [0x11, 0];
    assert Flatten([[0x11, 0]]) == [0x11, 0] + Flatten([]);
    ReceiveFrame(w, [], Conn([], [[0x11, 0]], []));
    var two: seq<seq<byte>> := [[0x11, 0], [0x11]];
    assert Flatten(two[1..]) == [0x11] + Flatten([]);
    ReceiveFrame(w, [0x11], Conn([], two, []));
  }

  /**
   * The opcode nibbles 0x3 to 0x7 and 0xB to 0xF are reserved, but the
   * decoder never looks at the opcode it reads: a frame with a reserved
   * opcode and a payload is returned like any other.
   */
  lemma ReservedOpcodeAccepted(opcode: int, payload: seq<byte>)
    requires 0x3 <= opcode <= 0x7 || 0xB <= opcode <= 0xF
    requires 0 < |payload| < Pow256(8)
    ensures Receive(Conn([], [FrameBytes(true, opcode, false, [], payload)], [])).0 == Received(Frame(true, opcode, payload))
  {
    var w := Wire(true, opcode, false, LengthCode(|payload|), [], payload);
    var chunks := [w.Encoded()];
    assert Flatten(chunks) == w.Encoded() + Flatten([]);
    ReceiveFrame(w, [], Conn([], chunks, []));
  }

  /**
   * The decoder accepts a length field longer than needed: a Text frame of
   * 5 bytes announced by the code 126 and a 2-byte extended length of 5 is
   * returned like the same frame with the code 5.
   */
  lemma NonMinimalLength()
    ensures Receive(Conn([], [[0x11, 252, 0, 5, 1, 2, 3, 4, 5]], [])).0 == Received(Frame(true, Text, [1, 2, 3, 4, 5]))
  {
    var w := Wire(true, Text, false, 126, [], [1, 2, 3, 4, 5]);
    assert w.Encoded() == [0x11, 252, 0, 5, 1, 2, 3, 4, 5];
    assert Flatten([w.Encoded()]) == w.Encoded() + Flatten([]);
    ReceiveFrame(w, [], Conn([], [w.Encoded()], []));
  }
}
