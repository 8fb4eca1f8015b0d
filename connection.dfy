/**
 * `WebSocketConnection.ReceiveAsync` (WebSocketConnection.cs): the loop that
 * reads chunks from the transport and feeds them to the step functions until
 * a frame is complete, keeping what follows the frame for the next call.
 *
 * The transport (`AwaitableStream`) is modelled by the chunks that
 * `ReadAsync` will still return, in order, and by the log of the counts
 * passed to `Consumed`. A chunk and `_activeBuffer` are modelled by their
 * bytes. When `ReadAsync` is due but no chunk is left, the source would
 * wait; the model stops there with the outcome `Starved`.
 */
module Connection {
  import opened Bytes
  import opened Frames
  import opened Decoder

  /** How `ReceiveAsync` ends: with a frame, waiting for input that never comes, or with an exception. */
  datatype Outcome = Received(frame: Frame) | Starved | Failed(error: Exception)

  /** What `ReceiveAsync` reads and changes: `_activeBuffer` and the transport. */
  datatype Conn = Conn(active: seq<byte>, chunks: seq<seq<byte>>, consumed: seq<int>)

  /** What `ReceiveAsync` does, from an empty parse state. */
  function Receive(c: Conn): (Outcome, Conn)
  {
    Loop(Opcode, Initial, c)
  }

  /**
   * The outer loop of `ReceiveAsync` from field `field` and state `s`: read
   * a chunk when the buffer is used up (starting again at its offset 0), run
   * the inner loop over it, report the bytes it advanced with `Consumed`,
   * and repeat until the frame is complete; then keep the bytes after the
   * frame as the new `_activeBuffer` and return the frame.
   */
  function Loop(field: NextField, s: ParseState, c: Conn): (r: (Outcome, Conn))
    requires s.bufferOffset <= |c.active|
    requires field == Complete ==> s.frame.Some?
    decreases |c.chunks|, (if s.bufferOffset < |c.active| then 1 else 0), (if field == Complete then 0 else 1)
  {
    if field == Complete then
      (Received(s.frame.value), c.(active := c.active[s.bufferOffset..]))
    else if s.bufferOffset >= |c.active| && c.chunks == [] then
      (Starved, c)
    else
      var read := s.bufferOffset >= |c.active|;
      var active := if read then c.chunks[0] else c.active;
      var chunks := if read then c.chunks[1..] else c.chunks;
      var s1 := if read then s.(bufferOffset := 0) else s;
      match Drain(active, field, s1)
      case Throws(e) => (Failed(e), Conn(active, chunks, c.consumed))
      case Ok(st) =>
        Loop(st.next, st.state, Conn(active, chunks, c.consumed + [st.state.bufferOffset - s1.bufferOffset]))
  }

  class WebSocketConnection {
    /** The bytes of `_activeBuffer`: what is left of the last chunk read. */
    var activeBuffer: seq<byte>
    /** The chunks the transport's `ReadAsync` will still return, in order. */
    var chunks: seq<seq<byte>>
    /** The counts passed to the transport's `Consumed`, in order. */
    var consumed: seq<int>
    const subProtocol: string

    /** `new WebSocketConnection(connection, subProtocol)` over a transport that will deliver `chunks`. */
    constructor (chunks: seq<seq<byte>>, subProtocol: string)
      ensures activeBuffer == [] && this.chunks == chunks && consumed == [] && this.subProtocol == subProtocol
    {
      activeBuffer := [];
      this.chunks := chunks;
      consumed := [];
      this.subProtocol := subProtocol;
    }

    /** `ReceiveAsync`: the next frame, with `_activeBuffer` and the transport updated as `Receive` says. */
    method ReceiveAsync() returns (r: Outcome)
      modifies this
      ensures (r, Conn(activeBuffer, chunks, consumed)) == Receive(old(Conn(activeBuffer, chunks, consumed)))
    {
      ghost var goal := Receive(Conn(activeBuffer, chunks, consumed));
      var nextField := Opcode;
      var state := Initial;
      while nextField != Complete
        invariant state.bufferOffset <= |activeBuffer|
        invariant nextField == Complete ==> state.frame.Some?
        invariant Loop(nextField, state, Conn(activeBuffer, chunks, consumed)) == goal
        decreases |chunks|, (if state.bufferOffset < |activeBuffer| then 1 else 0), (if nextField == Complete then 0 else 1)
      {
        if state.bufferOffset >= |activeBuffer| {
          if chunks == [] {
            return Starved;
          }
          activeBuffer, chunks := chunks[0], chunks[1..];
          state := state.(bufferOffset := 0);
        }
        var startOffset := state.bufferOffset;
        ghost var field0, state0 := nextField, state;
        while nextField != Complete && state.bufferOffset < |activeBuffer|
          invariant startOffset <= state.bufferOffset <= |activeBuffer|
          invariant nextField == Complete && field0 != Complete ==> state.frame.Some?
          invariant Drain(activeBuffer, nextField, state) == Drain(activeBuffer, field0, state0)
          decreases |activeBuffer| - state.bufferOffset, 5 - Rank(nextField)
        {
          var step := ParseNextField(activeBuffer, nextField, state);
          if step.Throws? {
            return Failed(step.error);
          }
          nextField, state := step.value.next, step.value.state;
        }
        consumed := consumed + [state.bufferOffset - startOffset];
      }
      activeBuffer := activeBuffer[state.bufferOffset..];
      r := Received(state.frame.value);
    }
  }
}
