/** The wire-level vocabulary the queue works with: bytes, the fixed-size
    message header, and the two collaborators it calls but does not own --
    the header reader and the value deserializer. Both collaborators are
    passed to the queue as function values, so nothing is assumed about
    them beyond the contract stated here. */
module Wire {

  newtype byte = b: int | 0 <= b < 0x100

  datatype Option<+T> = None | Some(value: T)

  /** Every message on the wire starts with a header of exactly this many bytes. */
  const HeaderSize: nat := 11

  /** What the header reader extracts from the 11 header bytes.
      `byteLength` is the total encoded length of the message, header included. */
  datatype Header = Header(id: int, receptive: bool, byteLength: int)

  /** The outcome of deserializing one value from a buffer at a start offset:
      the value and the offset of the first byte after it, or the error the
      deserializer threw. */
  datatype Deserialized<+V, +E> = Deserialized(value: V, offset: int) | Thrown(error: E)

  /** The offset the deserializer reports when the value it read ran to the
      end of the buffer: nothing further is to be scanned in that buffer. */
  const EndOfBuffer: int := -1

  /** The deserializer makes progress and stays inside the buffer: whenever
      it returns a value, the offset it reports is either the end-of-buffer
      sentinel or lies strictly after the offset it started from and no
      further than the end of the buffer. Without the first half the queue's
      scanning loop need not terminate; without the second the queue could
      keep an offset past the bytes it holds. */
  ghost predicate Progressive<V, E>(decode: (seq<byte>, nat) -> Deserialized<V, E>)
  {
    forall buffer: seq<byte>, start: nat ::
      decode(buffer, start).Deserialized? ==>
        || decode(buffer, start).offset == EndOfBuffer
        || start < decode(buffer, start).offset <= |buffer|
  }
}
