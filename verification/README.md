# Queue reassembler model

A Dafny model of the message queue of the `veza` inter-process messaging
library: the `Queue` class of `src/lib/Structures/Queue.ts`. A queue turns an
arbitrarily fragmented byte stream into message records. Each call to
`process` takes the next chunk of bytes (or `null`), prepends the bytes
carried over from the previous call, and yields one record
`{id, receptive, data}` per message it can frame. Framing reads an 11-byte
header at the current `offset` (message id, receptive flag, and the total
`byteLength` of the message) and then deserializes one value after it. The
queue also owns a `Map<number, QueueEntry>` of pending calls, which
`process` never touches.

Modules:

- `Wire` (`wire.dfy`): bytes, the 11-byte `Header`, the deserializer's
  result (`Deserialized(value, offset)` or `Thrown(error)`), the `-1`
  end-of-buffer sentinel, and `Progressive`. `Progressive` is what the
  model assumes of the deserializer. It reports either `-1` or an offset
  strictly after the offset it started from and no further than the end of
  the buffer. The first half makes the loop terminate. The second keeps the
  queue's offset inside the bytes it holds.
- `Queue` (`queue.dfy`): the queue state (`offset`, `rest`, `pending`), the
  record type, the scanning loop `Scan`, `Process` (lines 26-63 as a pure
  step function), and `ProcessLoop` (the same call written imperatively with
  `break`s, proved equal to `Process`).
- `QueueScan` (`queue_scan.dfy`): where the loop reads headers, what it
  yields at each of them, and why it stops.
- `QueueState` (`queue_state.dfy`): the states a queue passes through
  between calls (`Queue.Consistent`). With nothing carried the offset is 0.
  With bytes carried the offset lies within them.
- `ProcessPaths` (`process_paths.dfy`): each of the five paths of one call.
- `Delivery` (`delivery.dfy`): feeding a queue a sequence of chunks, and
  chunking invariance.
- `GuardFinding` (`guard_finding.dfy`): the body-incomplete guard (see
  Findings).

The header reader (`read`) and the deserializer (`deserializeWithMetadata`)
are parameters of every operation: a function `seq<byte> -> Header` and a
function `(seq<byte>, nat) -> Deserialized<V, E>`. Nothing is assumed about
them except `Progressive`. A thrown exception becomes the `Thrown` case.
The pending-call record is an opaque type parameter `Entry`.

The source's record `{id: null, receptive: false, data: error}` is the
variant `FramingError(error)`. A decoded message is
`Message(id, receptive, data)`. `Record.Id()` and `Record.Receptive()` give
the source's field view of both.

The model keeps these details of the code:

- The underflow guard at line 35 buffers when at most 11 bytes remain
  (`<= 11`), so exactly 11 remaining bytes are buffered too.
- When buffering (lines 36 and 44), the whole working buffer is carried,
  not only the unread remainder, and `offset` keeps its value.
- The body-incomplete guard at line 43 compares `byteLength` with the whole
  buffer's length, not with the bytes after `offset`. So a header that
  announces more bytes than remain can still reach the deserializer (see
  Findings).

## Model

| member | source | states |
|---|---|---|
| Queue.Scan | src/lib/Structures/Queue.ts:32-62 | One loop run over a working buffer. It yields an error record only as its last record. When it carries bytes, it carries the whole working buffer and has yielded no error record. If it yields nothing, it carries the buffer and keeps the offset. If it carries nothing, the offset is back to 0. It reads one header per record, plus at most one for a message whose header announces more bytes than the whole buffer holds. |
| Queue.Process | src/lib/Structures/Queue.ts:8-63 | The pending-call map is unchanged. With no chunk and no carry, nothing is yielded and the state is unchanged. Only the last record can be the error record. Carried bytes are exactly the carry followed by the chunk. A call that has bytes to scan and carries nothing resets the offset to 0 and yields at least one record. A call that yields nothing keeps the offset. After an error record, the queue has offset 0 and no carry. |
| Queue.ProcessLoop | src/lib/Structures/Queue.ts:26-63 | The imperative loop with its early exits yields the same records and leaves the same state as the step function `Process`. |
| Queue.ScanLoop | src/lib/Structures/Queue.ts:32-62 | The loop with its early exits (`break` on a short buffer, an incomplete body or a thrown error, and the exit through the `while (buffer)` test after the `-1` sentinel sets `buffer` to `null`) yields the same records and ends with the same offset and carry as `Scan`. |
| QueueScan.ScanReadsInBounds | src/lib/Structures/Queue.ts:35-40 | Every header slice read lies strictly inside the buffer (`pos + 11 < length`). The first header is read at the current offset. |
| QueueScan.ScanFollowsOffsets | src/lib/Structures/Queue.ts:49-55 | Each header after the first is read at the offset the deserializer reported for the message before it. |
| QueueScan.ScanRecordsMatchHeaders | src/lib/Structures/Queue.ts:40-59 | Record i is the id and receptive flag of header i with the value deserialized at header i plus 11, or the error record carrying what the deserializer threw there. |
| QueueScan.HeadersAdvance | src/lib/Structures/Queue.ts:49-55 | Header positions strictly increase, each at least 12 bytes after the one before. So no header is read twice. |
| QueueScan.ScanCarryReason | src/lib/Structures/Queue.ts:35-46 | A carry happens for one of two reasons. Either at most 11 bytes remain after the final offset, or a header was read at the final offset and it announces more bytes than the whole buffer holds. |
| QueueScan.ScanCarryResumes | src/lib/Structures/Queue.ts:49-55 | When a carry follows yielded messages, the last of them is a decoded value, and the final offset is the one the deserializer reported for it. |
| QueueScan.ScanEndReason | src/lib/Structures/Queue.ts:49-60 | Without a carry, at least one record was yielded, each with its own header. The last one is the error record, or a value for which the deserializer reported the `-1` sentinel. |
| QueueState.ScanOffsetInBuffer | src/lib/Structures/Queue.ts:49-55 | A scan that starts at an offset inside the buffer ends at an offset inside it, since every offset the deserializer reports lies within the buffer. |
| QueueState.ProcessKeepsConsistent | src/lib/Structures/Queue.ts:26-63 | From a consistent queue, every call leaves a consistent queue. If nothing is carried the offset is 0. If bytes are carried the offset lies within them. |
| ProcessPaths.CarryIsPrepended | src/lib/Structures/Queue.ts:27-30 | Processing a chunk with carried bytes is the same as processing the carry followed by the chunk with nothing carried. |
| ProcessPaths.ShortBufferIsCarried | src/lib/Structures/Queue.ts:35-38 | When at most 11 bytes follow the offset, the call yields nothing. It carries the whole working buffer and keeps the offset. |
| ProcessPaths.IncompleteBodyIsCarried | src/lib/Structures/Queue.ts:40-46 | When the header's `byteLength` exceeds the working buffer's length, the call yields nothing. It carries the whole working buffer and keeps the offset. |
| ProcessPaths.DecodedMessageIsYielded | src/lib/Structures/Queue.ts:49-56 | A decoded value is yielded with the header's id and receptive flag. On `-1`, the call ends with offset 0 and no carry. Otherwise the next offset lies past the header, and the call continues exactly as a call scanning the same buffer from that offset. |
| ProcessPaths.FailedDecodeEndsCall | src/lib/Structures/Queue.ts:57-60 | A deserializer failure yields exactly the one error record, which has no id and is not receptive, and ends the call. The offset goes back to 0, nothing is carried, and the remaining bytes are dropped. |
| Delivery.Feed | src/lib/Structures/Queue.ts:8-63 | Over any sequence of calls the pending-call map is unchanged. Calls that yield nothing keep the offset. |
| Delivery.FeedKeepsConsistent | src/lib/Structures/Queue.ts:26-63 | Any sequence of calls on a consistent queue leaves it consistent. A new queue is consistent, so every queue a program can reach is. |
| Delivery.QuietCallIsTransparent | src/lib/Structures/Queue.ts:27-46 | A call that yields nothing followed by a second call gives the same records and state as one call on both chunks concatenated. |
| Delivery.QuietFeedIsOneCall | src/lib/Structures/Queue.ts:27-46 | A run of calls that together yield nothing leaves the same state as one call on all their bytes. |
| Delivery.ChunkingInvariance | src/lib/Structures/Queue.ts:26-63 | If every call before the last yields nothing, then all the calls together yield the same records and leave the same state as one call on the concatenated bytes. |
| Delivery.PartialMessageIsCarried | src/lib/Structures/Queue.ts:35-46 | A fresh queue given a strict prefix of a message yields nothing and carries the prefix. This needs the message's header to announce at least the message's length. |
| Delivery.PartialMessageFeedIsQuiet | src/lib/Structures/Queue.ts:35-46 | Delivering a strict prefix of such a message, split into any chunks, yields no record. |
| Delivery.SplitMessageMatchesWhole | src/lib/Structures/Queue.ts:26-63 | Delivering such a message in any chunks followed by a non-empty last chunk yields nothing before the last call. All the calls together give exactly what delivering the whole message at once gives. |
| Delivery.ByteByByteMatchesWhole | src/lib/Structures/Queue.ts:26-63 | A message delivered one byte per call gives the same records and final state as the whole message in one call. |
| Delivery.FifteenThenFive | src/lib/Structures/Queue.ts:26-63 | A 20-byte message delivered as 15 bytes and then 5 yields nothing on the first call. Both calls together give what the whole message gives. |
| GuardFinding.WholeBufferGuardDropsSplitMessage | src/lib/Structures/Queue.ts:43-46 | As written: take one whole 20-byte message followed by 15 bytes of a second. The second header announces 20 bytes, which exceeds the 15 that remain, yet the call yields an error record for it and carries nothing. |
| GuardFinding.ScanGuarded | src/lib/Structures/Queue.ts:32-62 | Corrected guard (`offset + byteLength > length`): every yielded record comes from a message lying wholly inside the buffer. A carry caused by a header points at a message not yet complete. |
| GuardFinding.OffsetGuardCarriesSplitMessage | src/lib/Structures/Queue.ts:43-46 | Corrected, on the same input: the first message is yielded and the second is carried at offset 20. Once its last 5 bytes arrive, it is yielded. |

## Left out

- The byte layout of the 11-byte header: the header reader (`../Util/Header`) is not part of this model. It is a parameter of every operation.
- The value format and `deserializeWithMetadata`: these come from the external `binarytf` library. The deserializer is a parameter, constrained only by `Progressive`.
- The generator's laziness: a call returns all of its records at once. Interleaving record consumption with later calls is not modelled.
- `process(null)` while bytes are carried: the source's `Buffer.concat` would be passed `null` there. The model requires a chunk whenever bytes are carried.
- The `resolve`/`reject` continuations of `QueueEntry` and the inherited `Map` API: the entry is an opaque type, and `process` never reads or writes the map.
- Transport and connection handling: not part of this component.
- Aliasing of the carried bytes: when nothing was carried, lines 36 and 44 store the caller's own chunk object as the carry, not a copy. A caller that changes its chunk after the call would change the carried bytes. The model's carry is an immutable sequence, so it assumes chunks are not changed after they are passed in.
- Delivery.ChunkingInvariance: only covers the case where every call before the last yields nothing. It says nothing about several whole messages split at message boundaries and delivered one per call. With the guard as written, chunking invariance for arbitrary splits is false: a split message that follows a whole one in the same chunk is dropped (see Findings). Even with the corrected guard, it would need a deserializer whose result depends only on the value's own bytes. The model does not assume that, so the message-boundary form is not stated.
- JavaScript numbers: offsets and lengths are unbounded integers. The source's double-precision numbers are exact far beyond any buffer length.
- Queue.Scan: its contract does not itself list header positions and exit conditions. `QueueScan.ScanReadsInBounds`, `QueueScan.ScanFollowsOffsets`, `QueueScan.ScanRecordsMatchHeaders`, `QueueScan.ScanCarryReason`, `QueueScan.ScanCarryResumes` and `QueueScan.ScanEndReason` state them about the same function, to keep each proof small.

## Findings

| source | as written | input that shows it | evidently intended | confidence | as-written member | corrected member |
|---|---|---|---|---|---|---|
| src/lib/Structures/Queue.ts:43 | `byteLength > buffer.byteLength` compares the message length with the whole buffer. So a message starting at a non-zero offset whose body has not fully arrived still reaches the deserializer. The deserializer throws, and the bytes already received are dropped instead of carried. | 35 bytes: one whole 20-byte message, then the first 15 bytes of a second 20-byte message (9-byte values) | `this.offset + byteLength > buffer.byteLength`, which carries the partial message (the comment on line 42 says the content is buffered for later) | medium; not executed | GuardFinding.WholeBufferGuardDropsSplitMessage | GuardFinding.ScanGuarded |

The rest of the model (`Queue.Scan`, `Queue.Process` and everything built on
them) keeps the guard as written, because it models the source's behaviour.
`GuardFinding.ScanGuarded` is the corrected loop, and
`GuardFinding.OffsetGuardCarriesSplitMessage` shows it on the same input.
