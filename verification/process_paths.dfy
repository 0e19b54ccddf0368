/** The paths one `Queue.process` call can take, each stated on its own:
    folding in the carry, the two ways of buffering, a decoded message, and
    a deserializer failure. */
module ProcessPaths {
  import opened Wire
  import opened Queue

  /** Carried bytes are prepended to the chunk and the carry is cleared
      before any scanning: processing with a carry is processing the
      concatenation with no carry. */
  lemma CarryIsPrepended<V, E, Entry>(q: State<Entry>, chunk: seq<byte>, read: seq<byte> -> Header,
                                      decode: (seq<byte>, nat) -> Deserialized<V, E>)
    requires q.rest.Some?
    requires Progressive(decode)
    ensures Process(q, Some(chunk), read, decode)
            == Process(q.(rest := None), Some(q.rest.value + chunk), read, decode)
  {
  }

  /** With at most a header's worth of bytes after the offset, the call
      yields nothing, carries the whole working buffer, and keeps the offset. */
  lemma ShortBufferIsCarried<V, E, Entry>(q: State<Entry>, chunk: Option<seq<byte>>, read: seq<byte> -> Header,
                                          decode: (seq<byte>, nat) -> Deserialized<V, E>)
    requires q.rest.Some? ==> chunk.Some?
    requires Progressive(decode)
    requires WorkingBuffer(q, chunk).Some? && TooShortForHeader(WorkingBuffer(q, chunk).value, q.offset)
    ensures Process(q, chunk, read, decode) == Step([], q.(rest := WorkingBuffer(q, chunk)))
  {
  }

  /** When the header at the offset announces more bytes than the whole
      working buffer holds, the call yields nothing for that message, carries
      the whole working buffer, and keeps the offset. */
  lemma IncompleteBodyIsCarried<V, E, Entry>(q: State<Entry>, chunk: Option<seq<byte>>, read: seq<byte> -> Header,
                                             decode: (seq<byte>, nat) -> Deserialized<V, E>)
    requires q.rest.Some? ==> chunk.Some?
    requires Progressive(decode)
    requires WorkingBuffer(q, chunk).Some? && !TooShortForHeader(WorkingBuffer(q, chunk).value, q.offset)
    requires BodyIncomplete(WorkingBuffer(q, chunk).value, q.offset, read)
    ensures Process(q, chunk, read, decode) == Step([], q.(rest := WorkingBuffer(q, chunk)))
  {
  }

  /** A decoded message yields the header's id and receptive flag with the
      decoded value. On the end-of-buffer sentinel the call ends there with
      the offset reset and nothing carried; otherwise scanning continues in
      the same buffer from the offset the deserializer reported. */
  lemma DecodedMessageIsYielded<V, E, Entry>(q: State<Entry>, chunk: Option<seq<byte>>, read: seq<byte> -> Header,
                                             decode: (seq<byte>, nat) -> Deserialized<V, E>)
    requires q.rest.Some? ==> chunk.Some?
    requires Progressive(decode)
    requires WorkingBuffer(q, chunk).Some? && !TooShortForHeader(WorkingBuffer(q, chunk).value, q.offset)
    requires !BodyIncomplete(WorkingBuffer(q, chunk).value, q.offset, read)
    requires decode(WorkingBuffer(q, chunk).value, q.offset + HeaderSize).Deserialized?
    ensures var buffer := WorkingBuffer(q, chunk).value;
            var header := read(HeaderAt(buffer, q.offset));
            var value := decode(buffer, q.offset + HeaderSize).value;
            var next := decode(buffer, q.offset + HeaderSize).offset;
            var r := Process(q, chunk, read, decode);
            && r.records != []
            && r.records[0] == Message(header.id, header.receptive, value)
            && (next == EndOfBuffer ==> r == Step([r.records[0]], q.(offset := 0, rest := None)))
            && (next != EndOfBuffer ==>
                  && next > q.offset + HeaderSize
                  && r == var rest := Process(q.(offset := next, rest := None), Some(buffer), read, decode);
                          Step([r.records[0]] + rest.records, rest.state))
  {
  }

  /** A deserializer failure yields exactly one record, the error record,
      and ends the call: the offset resets, nothing is carried, and the
      remaining bytes of the working buffer are dropped. */
  lemma FailedDecodeEndsCall<V, E, Entry>(q: State<Entry>, chunk: Option<seq<byte>>, read: seq<byte> -> Header,
                                          decode: (seq<byte>, nat) -> Deserialized<V, E>)
    requires q.rest.Some? ==> chunk.Some?
    requires Progressive(decode)
    requires WorkingBuffer(q, chunk).Some? && !TooShortForHeader(WorkingBuffer(q, chunk).value, q.offset)
    requires !BodyIncomplete(WorkingBuffer(q, chunk).value, q.offset, read)
    requires decode(WorkingBuffer(q, chunk).value, q.offset + HeaderSize).Thrown?
    ensures var error := decode(WorkingBuffer(q, chunk).value, q.offset + HeaderSize).error;
            Process(q, chunk, read, decode) == Step([FramingError(error)], q.(offset := 0, rest := None))
    // the error record has no id and is not receptive
    ensures var r := Process(q, chunk, read, decode);
            r.records[0].Id() == None && !r.records[0].Receptive()
  {
  }
}
