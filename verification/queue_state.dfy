/** The states a queue passes through: every call keeps the offset inside
    the bytes the queue holds, and resets it whenever nothing is carried. */
module QueueState {
  import opened Wire
  import opened Queue
  import opened QueueScan

  /** A scan that starts inside the buffer ends inside it. */
  lemma {:induction false} ScanOffsetInBuffer<V, E>(buffer: seq<byte>, offset: nat, read: seq<byte> -> Header,
                                                     decode: (seq<byte>, nat) -> Deserialized<V, E>)
    requires Progressive(decode)
    requires offset <= |buffer|
    ensures Scan(buffer, offset, read, decode).offset <= |buffer|
    decreases |buffer| - offset
  {
    if !TooShortForHeader(buffer, offset) && !BodyIncomplete(buffer, offset, read) {
      var d := decode(buffer, offset + HeaderSize);
      if d.Deserialized? && d.offset != EndOfBuffer {
        ScanContinues(buffer, offset, read, decode);
        var next: nat := d.offset;
        ScanOffsetInBuffer(buffer, next, read, decode);
        assert Scan(buffer, next, read, decode).offset <= |buffer|;
      }
    }
  }

  /** A new queue is consistent. */
  lemma FreshIsConsistent<Entry>()
    ensures Consistent(Fresh<Entry>())
  {
  }

  /** Every call keeps a queue consistent: the offset is 0 when nothing is
      carried after the call, and lies within the carried bytes otherwise. */
  lemma ProcessKeepsConsistent<V, E, Entry>(q: State<Entry>, chunk: Option<seq<byte>>, read: seq<byte> -> Header,
                                            decode: (seq<byte>, nat) -> Deserialized<V, E>)
    requires q.rest.Some? ==> chunk.Some?
    requires Progressive(decode)
    requires Consistent(q)
    ensures Consistent(Process(q, chunk, read, decode).state)
  {
    if WorkingBuffer(q, chunk).Some? {
      ScanOffsetInBuffer(WorkingBuffer(q, chunk).value, q.offset, read, decode);
    }
  }
}
