# WebSocket frame decoding over a zero-copy buffer chain

This project models the core of the receive path of `Microsoft.Extensions.WebSockets`, in Dafny. It covers two parts.

- **The byte-buffer chain** (`BufferSegment`, `ByteBuffer`). A `BufferSegment` is a heap node. It holds a window (`ArraySegment<byte>`) of a byte array, an `Owned` flag and a mutable `Next` link. A `ByteBuffer` is a view of either one flat window or the run of nodes from `_head` to `_tail`. The model covers `Length`, `IsEmpty`, `IsSingleBuffer`, `IndexOf`, `FindSegment`, both `Slice` overloads, `GetArraySegment` and the enumerator. Nodes are a Dafny `class` whose `next` field the slicing code rewrites in place. Each view is paired with a ghost sequence of the nodes of its chain.
- **The incremental frame decoder** (`WebSocketConnection.ReceiveAsync` and its `Parse*` steps). It is a state machine over `NextField`: `Opcode`, `MaskedAndLen`, the optional `ExtendedLen`, the optional `MaskingKey`, `Payload`, then `Complete`. It updates a `ParseState` one field at a time and can stop and resume at any byte boundary between chunks. `ReceiveAsync` is a class method with the source's two nested loops. The steps are functions that take the `ParseState` struct and return the updated struct with the next field.

The frame header is read as the code reads it, which is not the bit layout of section 5.2 of RFC 6455. The code takes FIN from bit 0 of the first byte and the opcode from its high nibble. It takes MASK from bit 0 of the second byte and the 7-bit length from its upper seven bits. The sample program writes frames in the same layout (`0x11` for a final Text frame, `len << 1` for the length). The model follows the code. `Frames.RfcLayoutDiffers` shows a byte that the two layouts read differently.

The main results:

- `ByteBuffers.Slice` builds a chain of fresh nodes whose bytes are exactly the bytes `[offset, offset + length)` of the original (`ByteBuffers.SliceYields`). It writes only to nodes it creates, so every node of the original chain is left as it was. A slice that runs past the last node has a null tail; such a view is still well-formed, and `Length`, `IndexOf`, `Slice`, the enumerator and `GetArraySegment` are modelled on it too.
- `Framing.ReceiveFrame` shows that the decoder handles any frame in the code's layout, however its bytes are split into chunks. This includes a 7-bit length field of 126 or 127 followed by an extended length that would have fitted a shorter field. It returns that frame and keeps exactly the bytes after it. It reports exactly the frame's bytes to `Consumed`. This holds on the assumption, stated under "## Left out", that the transport does not rewrite a chunk's array once the code has acknowledged it.
- `Sample.Spelunk` replays the sample program: four writes carry two text frames, and both are received.

Files:

| file | module |
|---|---|
| `bytes.dfy` | `Bytes`: bytes, the `ArraySegment` value, `Array.IndexOf`, `Buffer.BlockCopy`, and the exceptions as values |
| `segments.dfy` | `Segments`: the `BufferSegment` class and chains of nodes |
| `byte_buffer.dfy` | `ByteBuffers`: `ByteBuffer`, `Length`, `IndexOf`, `FindSegment`, `Slice` |
| `enumerator.dfy` | `Enumeration`: the enumerator and `GetArraySegment` |
| `frames.dfy` | `Frames`: `NextField`, `ParseState`, `WebSocketFrame`, opcodes, header bits, and a reference encoder |
| `decoder.dfy` | `Decoder`: `ParseOpcode` … `ParsePayload`, `ParseNextField` and the inner loop |
| `connection.dfy` | `Connection`: `ReceiveAsync` over a transport given as a sequence of chunks |
| `framing.dfy` | `Framing`: the decoder against the reference encoder, for any split into chunks |
| `scenario.dfy` | `Sample`: the sample program, and two edge cases |

## Model

| member | source | states |
|---|---|---|
| `Bytes.NewSegment` | src/Microsoft.Extensions.WebSockets/Internal/ByteBuffer.cs:106 | An `ArraySegment` can be built exactly when the array is not null and the window lies inside it. A null array throws `ArgumentNullException`. A negative offset or count throws `ArgumentOutOfRangeException`. |
| `Bytes.ArrayIndexOf` | src/Microsoft.Extensions.WebSockets/Internal/ByteBuffer.cs:71 | `Array.IndexOf` over a window returns -1 exactly when the value is not in the window. Otherwise it returns an index into the whole array, inside the window, where the value first occurs. |
| `Bytes.BlockCopy` | src/Microsoft.Extensions.WebSockets/Internal/ByteBuffer.cs:187 | `Buffer.BlockCopy` overwrites `count` bytes of the destination at `dstOffset` with the source bytes and leaves every other byte alone. |
| `Segments.BufferSegment.constructor` | src/Microsoft.Extensions.WebSockets/Internal/BufferSegment.cs:7-10 | A node holds the given window, `Owned` flag and `Next` link. |
| `Segments.BufferSegment.End` | src/Microsoft.Extensions.WebSockets/Internal/BufferSegment.cs:12 | `End` is the window's offset plus its count. For a valid window it is an array index no larger than the array's length. |
| `Segments.BufferSegment.Slice` | src/Microsoft.Extensions.WebSockets/Internal/BufferSegment.cs:19-27 | `Slice(offset)` returns a fresh node over the same array at `Offset + offset` with `Count - offset` bytes, or the exception of its window constructor. The node keeps `Owned` and `Next`, and its bytes are the receiver's from `offset` on. The receiver is not modified. |
| `Segments.BufferSegment.SliceRange` | src/Microsoft.Extensions.WebSockets/Internal/BufferSegment.cs:34-42 | `Slice(offset, length)` returns a fresh node over `[Offset + offset, +length)` of the same array, with `Owned` kept and `Next == null`, or the constructor's exception. Its bytes are the receiver's `[offset, offset + length)`. |
| `Segments.BufferSegment.Clone` | src/Microsoft.Extensions.WebSockets/Internal/BufferSegment.cs:44-52 | `Clone` returns a fresh node with the same window, `Owned` and `Next`. |
| `ByteBuffers.IsEmptyMeansNoBytes` | src/Microsoft.Extensions.WebSockets/Internal/ByteBuffer.cs:17 | An `IsEmpty` view has no bytes. For a flat or one-node view the converse holds too. A view whose tail is null is never `IsEmpty`. |
| `ByteBuffers.Length` | src/Microsoft.Extensions.WebSockets/Internal/ByteBuffer.cs:21-42 | A flat view's `Length` is its count. A chained view's `Length` is the sum of the counts from `_head` along `Next` until null, which is the number of bytes of the chain. |
| `ByteBuffers.IndexOf` | src/Microsoft.Extensions.WebSockets/Internal/ByteBuffer.cs:58-99 | A flat view over a null array throws. Otherwise the result is the scan of the windows from `_head` to `_tail` (to the end of the chain when `_tail` is null), or of the flat window. With a null `_tail` and no hit, the scan steps past the last node and throws a null reference. `start` is ignored. |
| `ByteBuffers.ScanChain` | src/Microsoft.Extensions.WebSockets/Internal/ByteBuffer.cs:66-98 | Over nodes, the result is the scan of the windows from `_head` to `_tail`, or a null reference when `_tail` is null and no window holds the value. |
| `ByteBuffers.ScanNodes` | src/Microsoft.Extensions.WebSockets/Internal/ByteBuffer.cs:74-98 | The loop adds up the counts of windows without a hit, plus the array index of the first hit. It stops after the tail, or dereferences null after the last node when there is no tail. |
| `ByteBuffers.IndexOfMeaning` | src/Microsoft.Extensions.WebSockets/Internal/ByteBuffer.cs:63-99 | The scan returns -1 exactly when the value is in none of the scanned windows. Over one window a hit is an array-absolute index holding the value. When every window starts at array index 0, a hit is the first logical position of the value. |
| `ByteBuffers.FindSegment` | src/Microsoft.Extensions.WebSockets/Internal/ByteBuffer.cs:194-211 | `FindSegment` returns the node where `Locate` stops, with the offset left over, or null when it runs past the last node. `Locate` compares the absolute `End` with the relative offset, as the code does. |
| `ByteBuffers.LocateSum` | src/Microsoft.Extensions.WebSockets/Internal/ByteBuffer.cs:196-210 | The bytes before the node found plus the offset left over equal the offset asked for. A walk that runs off the chain has skipped at least every byte. |
| `ByteBuffers.LocateZeroOffsets` | src/Microsoft.Extensions.WebSockets/Internal/ByteBuffer.cs:198 | When every window starts at array index 0, `FindSegment` runs off the chain exactly when the offset is at or past the chain's bytes. Otherwise it stops strictly inside a window. |
| `ByteBuffers.SliceOffsetQuirk` | src/Microsoft.Extensions.WebSockets/Internal/ByteBuffer.cs:198 | A chain whose first window starts at array index 2 and that holds 4 bytes: slicing 1 byte at offset 3 throws instead of returning the last byte. |
| `ByteBuffers.Slice` | src/Microsoft.Extensions.WebSockets/Internal/ByteBuffer.cs:101-147 | A flat slice is the window at `_data.Offset + offset` of the given length over the same array, or the constructor's exception. A chained slice is a chain holding exactly the windows that `SliceWindows` computes, or that function's exception. Every node of the result is fresh. A result is a well-formed view, its tail the last node or null. No node of the original chain is changed. |
| `ByteBuffers.SliceChain` | src/Microsoft.Extensions.WebSockets/Internal/ByteBuffer.cs:110-145 | A null from `FindSegment` gives a null-reference exception. Otherwise the first node's `Slice(offset)` is taken, then the walk. Every node of the result is fresh. |
| `ByteBuffers.SliceFromLanding` | src/Microsoft.Extensions.WebSockets/Internal/ByteBuffer.cs:112-145 | The node `FindSegment` found is trimmed by `Slice(offset)`, whose exception is passed on; otherwise the walk starts from the trimmed copy. Every node of the result is fresh. |
| `ByteBuffers.Walk` | src/Microsoft.Extensions.WebSockets/Internal/ByteBuffer.cs:114-145 | The walk keeps whole nodes while they hold fewer bytes than are still wanted, and cuts the first one that does not. It builds a chain holding exactly the windows `TakeWindows` computes. Its tail is the last node, or null when it ran past the end. Every node of the result is the trimmed first node or one the walk created. It writes only to the trimmed first node and the nodes it creates. |
| `ByteBuffers.Advance` | src/Microsoft.Extensions.WebSockets/Internal/ByteBuffer.cs:120-126 | Keeping a node links it to a fresh clone of the next old node. The old nodes stay as they were, and the new chain grows by that node. |
| `ByteBuffers.Close` | src/Microsoft.Extensions.WebSockets/Internal/ByteBuffer.cs:127-142 | The node at the end is cut to the length still wanted with `Slice(0, length)`. It becomes the new head when no node was kept, and otherwise it is linked after the last kept node. The node it adds is fresh. |
| `ByteBuffers.TakeWindowsContent` | src/Microsoft.Extensions.WebSockets/Internal/ByteBuffer.cs:117-143 | A walk that succeeds closes exactly when the windows hold at least `length` bytes. When it closes, its windows hold exactly the first `length` bytes. When it does not, it kept every window. |
| `ByteBuffers.TakeWindowsOutcome` | src/Microsoft.Extensions.WebSockets/Internal/ByteBuffer.cs:120-130 | The walk succeeds exactly for a non-negative length. A negative length throws `ArgumentOutOfRangeException` from the final `Slice(0, length)`. |
| `ByteBuffers.SliceContent` | src/Microsoft.Extensions.WebSockets/Internal/ByteBuffer.cs:110-145 | A chained slice that does not throw holds exactly the chain's bytes `[offset, offset + length)` when they exist. Otherwise it holds every byte from `offset` on and has no tail. |
| `ByteBuffers.SliceOutcome` | src/Microsoft.Extensions.WebSockets/Internal/ByteBuffer.cs:111-112 | When every window starts at array index 0, a chained slice succeeds exactly when `offset < Length` and `length >= 0`. An offset at or past `Length` throws a null reference. |
| `ByteBuffers.SliceYields` | src/Microsoft.Extensions.WebSockets/Internal/ByteBuffer.cs:101-147 | When every window starts at array index 0 and `offset + length <= Length`, a chained slice returns a well-formed view. Its tail is its last node and has `Next == null`. Its bytes are exactly the original's `[offset, offset + length)`. |
| `ByteBuffers.SliceFrom` | src/Microsoft.Extensions.WebSockets/Internal/ByteBuffer.cs:154 | `Slice(offset)` is `Slice(offset, Length - offset)`. Every node of a chained result is newly created, and a result is well-formed, its tail the last node or null. |
| `ByteBuffers.SliceFromSuffix` | src/Microsoft.Extensions.WebSockets/Internal/ByteBuffer.cs:149-154 | When every window starts at array index 0, `Slice(offset)` keeps every byte from `offset` on, so the byte at `offset` comes first. At `offset == Length` it throws a null reference. |
| `Enumeration.EnumeratedWindows` | src/Microsoft.Extensions.WebSockets/Internal/ByteBuffer.cs:253-284 | The enumerator yields the windows from `_head` to `_tail` in order. It skips the tail exactly when its `_offset` already equals the tail's `End`. With a null `_tail` it yields every window of the chain. |
| `Enumeration.TailSkipped` | src/Microsoft.Extensions.WebSockets/Internal/ByteBuffer.cs:242 | A two-node view whose first window starts at the tail's `End` enumerates only its first window. |
| `Enumeration.Enumerator.constructor` | src/Microsoft.Extensions.WebSockets/Internal/ByteBuffer.cs:236-243 | A new enumerator starts at `_head` with `_offset` set to the head's window offset, or to the flat window's offset. It has the view's windows still to yield. |
| `Enumeration.Enumerator.MoveNext` | src/Microsoft.Extensions.WebSockets/Internal/ByteBuffer.cs:253-284 | `MoveNext` returns true exactly when a window is still to come, and `Current` is then that window. A flat view yields its window once, if it has an array. At the tail `MoveNext` records the tail's `End` in `_offset` instead of moving on. With a null `_tail` it moves on past every node and returns false once `_head` is null, since the view's flat window has no array. Once it returns false the enumerator is unchanged. |
| `Enumeration.Next` | src/Microsoft.Extensions.WebSockets/Internal/ByteBuffer.cs:166 | One turn of the `foreach`: the window yielded and what is still to come make up what was to come. |
| `Enumeration.Gather` | src/Microsoft.Extensions.WebSockets/Internal/ByteBuffer.cs:163-181 | With a single buffer the loop returns the first window yielded. Otherwise it lists every window yielded, in order, and their total count. |
| `Enumeration.ListAll` | src/Microsoft.Extensions.WebSockets/Internal/ByteBuffer.cs:172-181 | Over several nodes the loop lists every window still to come, in order, and their total count. The list exists exactly when some window was yielded. |
| `Enumeration.Copy` | src/Microsoft.Extensions.WebSockets/Internal/ByteBuffer.cs:183-191 | The copy loop fills a fresh array of the total length with the windows' bytes in order. |
| `Enumeration.GetArraySegment` | src/Microsoft.Extensions.WebSockets/Internal/ByteBuffer.cs:156-192 | A flat view returns `_data` unchanged. A one-node view returns that node's window without copying. Otherwise the result is a fresh array holding the yielded windows' bytes in order, as `Flattened` states. |
| `Enumeration.FlattenedContent` | src/Microsoft.Extensions.WebSockets/Internal/ByteBuffer.cs:156-192 | When the tail is the chain's last node, or null, the result succeeds and holds exactly the view's bytes (unless the first window starts where the tail ends). |
| `Enumeration.FlattenedSingle` | src/Microsoft.Extensions.WebSockets/Internal/ByteBuffer.cs:166-171 | A one-node view returns its own window. If that window is empty the code throws a null reference: nothing is yielded, and the copy loop then runs over a list that was never created. |
| `Enumeration.FlattenedSkipsTail` | src/Microsoft.Extensions.WebSockets/Internal/ByteBuffer.cs:267 | A view of several nodes whose first window starts where the tail ends copies every window but the tail's. |
| `Frames.Rank` | src/Microsoft.Extensions.WebSockets/Internal/WebSocketConnection.cs:208-216 | The fields in the order the decoder reads them. `Complete` is last, and only `Complete` has rank 5. |
| `Frames.RfcLayoutDiffers` | src/Microsoft.Extensions.WebSockets/Internal/WebSocketConnection.cs:203-204 | The code reads `0x11` as FIN set with a Text opcode. Section 5.2 of RFC 6455 reads it as FIN clear, RSV3 set and opcode Text. |
| `Frames.BigEndianRoundTrip` | src/Microsoft.Extensions.WebSockets/Internal/WebSocketConnection.cs:162 | Writing a number as `n` big-endian bytes and reading it back gives the number. |
| `Frames.LengthCode` | samples/AwaitableStreamSpelunk/Program.cs:25-34 | The length field the sample writes announces the payload's length as the decoder reads it, and no field the decoder accepts for that length has fewer extended-length bytes. |
| `Frames.CodedFrameBytes` | src/Microsoft.Extensions.WebSockets/Internal/WebSocketConnection.cs:174-196 | A frame written with any length field the decoder accepts: FIN in bit 0 and the opcode in the high nibble of byte 0, MASK in bit 0 and that field in the upper bits of byte 1, then the extended length it announces, the key and the payload, for a frame of the stated total size. |
| `Frames.FrameBytes` | samples/AwaitableStreamSpelunk/Program.cs:25-34 | The reference encoder puts FIN in bit 0 and the opcode in the high nibble of byte 0. It puts MASK in bit 0 and the length code in the upper bits of byte 1. Then come the extended length, the key and the payload, for a frame of the stated total size. |
| `Decoder.ParseOpcode` | src/Microsoft.Extensions.WebSockets/Internal/WebSocketConnection.cs:198-206 | It consumes one byte. FIN is its low bit and the opcode is its high nibble. The next field is always `MaskedAndLen`, and nothing else in the state changes. |
| `Decoder.ParseMaskedAndLen` | src/Microsoft.Extensions.WebSockets/Internal/WebSocketConnection.cs:174-196 | It consumes one byte, and MASK is its low bit. A length of 127 selects 8 extended-length bytes and 126 selects 2. Any other length becomes `PayloadLength`, and the next field is `MaskingKey` if masked, else `Payload`. |
| `Decoder.ParseExtendedLength` | src/Microsoft.Extensions.WebSockets/Internal/WebSocketConnection.cs:157-172 | It consumes one byte and shifts it into `PayloadLength` from below. It leaves `ExtendedLen` exactly when `LengthSizeInBytes` reaches 0, going to `MaskingKey` if masked, else `Payload`. |
| `Decoder.ExtendedLength` | src/Microsoft.Extensions.WebSockets/Internal/WebSocketConnection.cs:157-172 | After `k` steps, `PayloadLength` is its old value times `256^k` plus the big-endian value of the `k` bytes read. |
| `Decoder.ParseMaskingKey` | src/Microsoft.Extensions.WebSockets/Internal/WebSocketConnection.cs:140-155 | It appends `min(available, 4 - key length)` bytes to the key, which never exceeds 4 bytes. It moves to `Payload` exactly when the key has 4 bytes. A key already longer than 4 bytes throws. |
| `Decoder.ParsePayload` | src/Microsoft.Extensions.WebSockets/Internal/WebSocketConnection.cs:118-138 | It takes `min(available, remaining)` bytes, appends them to the payload and lowers `PayloadLength` by that many. It keeps `BufferOffset` within the buffer. It completes exactly when nothing remains, with the frame's FIN, opcode and every payload byte taken, in order. |
| `Decoder.ParseNextField` | src/Microsoft.Extensions.WebSockets/Internal/WebSocketConnection.cs:104-116 | Dispatching on `Complete` throws `InvalidOperationException`. Every step moves strictly forward in field order, or stays on its field and consumes a byte. No step reads past the buffer. |
| `Decoder.Drain` | src/Microsoft.Extensions.WebSockets/Internal/WebSocketConnection.cs:90-93 | The inner loop stops with the frame complete or the buffer fully consumed, within the buffer. |
| `Connection.WebSocketConnection.constructor` | src/Microsoft.Extensions.WebSockets/Internal/WebSocketConnection.cs:45-49 | A connection starts with an empty `_activeBuffer`, the transport's chunks still to come and an empty `Consumed` log. |
| `Connection.WebSocketConnection.ReceiveAsync` | src/Microsoft.Extensions.WebSockets/Internal/WebSocketConnection.cs:57-102 | The two nested loops compute `Receive`. A chunk is read when the buffer is used up. Each round's advance is reported to `Consumed`. The bytes after the frame are kept as `_activeBuffer`. |
| `Framing.StepFrame` | src/Microsoft.Extensions.WebSockets/Internal/WebSocketConnection.cs:104-116 | On a frame in the code's layout, each step consumes the frame's next bytes. It leaves the decoder in the state those bytes determine, at any chunk boundary. |
| `Framing.DrainFrame` | src/Microsoft.Extensions.WebSockets/Internal/WebSocketConnection.cs:90-93 | The inner loop never throws on such a frame and advances through it by exactly the bytes it consumes. |
| `Framing.Exhausted` | src/Microsoft.Extensions.WebSockets/Internal/WebSocketConnection.cs:83-92 | The decoder can run out of input at the end of a frame only when the frame has no payload: it is then on the payload field and has not completed. |
| `Framing.LoopFrame` | src/Microsoft.Extensions.WebSockets/Internal/WebSocketConnection.cs:81-95 | From any point inside a frame the outer loop returns the frame and keeps exactly the bytes after it. It reports the rest of the frame to `Consumed`. |
| `Framing.ReceiveFrame` | src/Microsoft.Extensions.WebSockets/Internal/WebSocketConnection.cs:57-102 | For any frame, with any 7-bit length field the decoder accepts for its payload, and any split of its bytes, followed by `rest`, into chunks, `ReceiveAsync` returns the frame. It leaves exactly `rest` unread and reports exactly the frame's length to `Consumed`. A frame with no payload and nothing after it waits for input instead. |
| `Sample.Writes` | samples/AwaitableStreamSpelunk/Program.cs:25-34 | The sample's four writes hold the two frames' bytes, in order. |
| `Sample.Spelunk` | samples/AwaitableStreamSpelunk/Program.cs:35-47 | Two calls of `ReceiveAsync` over the four writes return a final Text frame "Hello, World" and then a final Text frame "Hello, again!". |
| `Sample.EmptyFrameAtEnd` | src/Microsoft.Extensions.WebSockets/Internal/WebSocketConnection.cs:83-92 | A zero-length frame whose header ends a chunk is not returned until another byte arrives. |
| `Sample.NonMinimalLength` | src/Microsoft.Extensions.WebSockets/Internal/WebSocketConnection.cs:174-196 | A 5-byte Text frame announced by the length field 126 and a 2-byte extended length of 5 is returned like the same frame with the field 5. |
| `Sample.ReservedOpcodeAccepted` | src/Microsoft.Extensions.WebSockets/Internal/WebSocketConnection.cs:204 | A frame with a reserved opcode (`0x3`–`0x7`, `0xB`–`0xF`) is returned like any other frame. The code does not reject it. |

## Left out

- `ByteBuffer.Concat` and the `ByteBuffer` indexer are called by the decoder but are not part of this model. The decoder sees `_activeBuffer`, `MaskingKey` and `Payload` by their bytes. Concatenation is `+` on bytes, and indexing is sequence indexing.
- Connection.WebSocketConnection.ReceiveAsync: each chunk is taken as its bytes. This matches a flat view, for which `Length`, `Slice` and `GetArraySegment` are exact (`ByteBuffers.Slice`, `Enumeration.GetArraySegment`). The chain quirks (`ByteBuffers.SliceFromSuffix`: a chain sliced at its `Length` throws) are not carried into the decoder.
- `AwaitableStream`: `ReadAsync` becomes taking the next chunk from a sequence, and `Consumed(n)` becomes appending `n` to a log. When a read is due and no chunk is left, the code would wait. The model stops there with the outcome `Starved`.
- `async`/`await`, `CancellationToken`, `Stream.CopyToAsync` and the writer task of the sample: scheduling and concurrency. The model is one sequential loop.
- Decoder.ParseExtendedLength: `PayloadLength` is an unbounded natural number. The code's 64-bit `long` can wrap in `(PayloadLength << 8) + byt` for 8-byte lengths with the top bit set; the model does not capture that.
- Decoder.ParsePayload: the `(int)` cast of `Math.Min(...)` cannot change the value for a buffer of `int` length, so it is not written out.
- Unmasking and Close-payload decoding are marked TODO in the code and are not implemented. A masked frame's payload is returned as received.
- Nothing rejects a reserved opcode or an oversized length, because the code does neither (`Sample.ReservedOpcodeAccepted`).
- ByteBuffers.SliceYields, ByteBuffers.SliceOutcome and ByteBuffers.SliceFromSuffix require every window to start at array index 0. `FindSegment` compares an absolute `End` with a relative offset, so the result is logically right only then (`ByteBuffers.SliceOffsetQuirk`). `ByteBuffers.SliceContent` states what happens for any offsets.
- ByteBuffers.IndexOfMeaning: a hit is a logical position only when every window starts at array index 0, because `Array.IndexOf` returns array-absolute indices.
- Enumeration.FlattenedContent requires that the first window not start where the tail ends. `Enumeration.FlattenedSkipsTail` states what happens when it does.
- `IndexOf(byte)` is `IndexOf(value, 0)` and is not modelled apart, since `start` is ignored anyway. The three `GetEnumerator` overloads only construct the enumerator. `Reset`, `Dispose` and `Current` do nothing, or return a field.
- `SendAsync` and `CloseAsync` throw `NotImplementedException`. `ByteBufferDisplayProxy` is a debugger view. `WebSocket2`, the interfaces, `WebSocketState` and `WebSocketCloseResult` hold no logic. The test host is web-host configuration. The frame constructor that takes a close result is not used by the decoder.
- The model assumes that the transport never writes an array again after a window has been taken over it, so an array is modelled by its elements. `AwaitableStream` is not part of this model, and nothing in the code modelled here guarantees it. `ReceiveAsync` reports `Consumed` every round (src/Microsoft.Extensions.WebSockets/Internal/WebSocketConnection.cs:94). Meanwhile `Payload` still holds windows over earlier chunks (:121), and they are copied only when the frame completes (:131). If the transport reuses storage it has been told is consumed, a payload that spans chunks can be overwritten before `GetArraySegment` copies it. The model does not capture that.
- Segments.IsChain: a well-formed chain holds only windows over a real array. A node over a default `ArraySegment` (null array), which `Length` and the enumerator would walk and on which `Array.IndexOf` throws `ArgumentNullException`, is not covered. No operation modelled here creates such a node.
- Aliasing of array storage between views is not represented. Aliasing of nodes is represented, since nodes are heap objects.
- ByteBuffers.Slice: the flat case's `_data.Offset + offset` (ByteBuffer.cs:106) is an unbounded sum, but C# `int` addition wraps. A flat view at offset 1 over a 4-byte array, sliced with `Slice(int.MaxValue, 0)`, gets a wrapped negative offset and throws `ArgumentOutOfRangeException` in C#. The model throws `ArgumentException`.
- ByteBuffers.SliceFrom: `Length - offset` (ByteBuffer.cs:154) does not wrap in the model; in C# it wraps for a negative offset below `Length - int.MaxValue`.
- Segments.BufferSegment.Slice: `Buffer.Offset + offset` and `Buffer.Count - offset` (BufferSegment.cs:23) do not wrap in the model. With 32-bit wrap-around a huge `offset` can give a different exception.
- Segments.BufferSegment.SliceRange: `Buffer.Offset + offset` (BufferSegment.cs:38) does not wrap in the model, as for `Slice(offset)`.
- ByteBuffers.Length: the running sum `length +=` (ByteBuffer.cs:36) is unbounded. In C# it wraps for chains holding more than `int.MaxValue` bytes.
- ByteBuffers.ScanNodes: the running sum `count +=` (ByteBuffer.cs:82, :86) is unbounded. In C# it wraps past `int.MaxValue` bytes.
- ByteBuffers.ScanChain: returns the unbounded sum of `ByteBuffers.ScanNodes`, without 32-bit wrap-around.
- ByteBuffers.IndexOf: returns the unbounded sum of `ByteBuffers.ScanNodes`, without 32-bit wrap-around.
- Enumeration.ListAll: `length += span.Count` (ByteBuffer.cs:179) is unbounded. In C# it wraps past `int.MaxValue` bytes, where allocating the array already fails.
- Enumeration.Gather: returns the unbounded total of `Enumeration.ListAll`, without 32-bit wrap-around.
- Enumeration.Copy: the copy offset `offset += span.Count` (ByteBuffer.cs:188) is unbounded, as for `Enumeration.ListAll`.
