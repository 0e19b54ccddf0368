/** What the scanning loop of `Queue.process` reads and yields, position by
    position: where it reads headers, which records it yields there, and why
    it stops. */
module QueueScan {
  import opened Wire
  import opened Queue

  /** One turn of the loop that yields a message and goes on scanning: the
      scan is that message followed by the scan from the reported offset. */
  lemma ScanContinues<V, E>(buffer: seq<byte>, offset: nat, read: seq<byte> -> Header,
                            decode: (seq<byte>, nat) -> Deserialized<V, E>)
    requires Progressive(decode)
    requires !TooShortForHeader(buffer, offset) && !BodyIncomplete(buffer, offset, read)
    requires decode(buffer, offset + HeaderSize).Deserialized?
    requires decode(buffer, offset + HeaderSize).offset != EndOfBuffer
    ensures decode(buffer, offset + HeaderSize).offset > offset + HeaderSize
    ensures var d := decode(buffer, offset + HeaderSize);
            var header := read(HeaderAt(buffer, offset));
            var tail := Scan(buffer, d.offset, read, decode);
            Scan(buffer, offset, read, decode)
              == Scanned([Message(header.id, header.receptive, d.value)] + tail.records,
                         [offset] + tail.headers, tail.offset, tail.rest)
  {
  }

  /** Every header position leaves room for a whole header strictly inside
      the buffer. */
  ghost predicate HeadersInside(buffer: seq<byte>, headers: seq<nat>) {
    forall i :: 0 <= i < |headers| ==> headers[i] + HeaderSize < |buffer|
  }

  /** Each header position after the first is the offset the deserializer
      reported for the message at the position before it. */
  ghost predicate HeadersChained<V, E>(buffer: seq<byte>, headers: seq<nat>,
                                       decode: (seq<byte>, nat) -> Deserialized<V, E>) {
    forall i :: 0 <= i < |headers| - 1 ==>
      && decode(buffer, headers[i] + HeaderSize).Deserialized?
      && decode(buffer, headers[i] + HeaderSize).offset == headers[i + 1]
  }

  /** Putting an in-bounds position in front keeps every position in bounds. */
  lemma InsideCons(buffer: seq<byte>, first: nat, rest: seq<nat>)
    requires first + HeaderSize < |buffer| && HeadersInside(buffer, rest)
    ensures HeadersInside(buffer, [first] + rest)
  {
  }

  /** Putting in front the position whose message reported the next one keeps the chain. */
  lemma ChainedCons<V, E>(buffer: seq<byte>, first: nat, rest: seq<nat>,
                          decode: (seq<byte>, nat) -> Deserialized<V, E>)
    requires HeadersChained(buffer, rest, decode)
    requires rest != [] ==>
               && decode(buffer, first + HeaderSize).Deserialized?
               && decode(buffer, first + HeaderSize).offset == rest[0]
    ensures HeadersChained(buffer, [first] + rest, decode)
  {
  }

  /** Every header slice the loop reads lies strictly inside the working
      buffer, and the first is read at the current offset. */
  lemma {:induction false} ScanReadsInBounds<V, E>(buffer: seq<byte>, offset: nat, read: seq<byte> -> Header,
                                                    decode: (seq<byte>, nat) -> Deserialized<V, E>)
    requires Progressive(decode)
    ensures var r := Scan(buffer, offset, read, decode);
      HeadersInside(buffer, r.headers) && (|r.headers| > 0 ==> r.headers[0] == offset)
    decreases |buffer| - offset
  {
    if !TooShortForHeader(buffer, offset) && !BodyIncomplete(buffer, offset, read) {
      var d := decode(buffer, offset + HeaderSize);
      if d.Deserialized? && d.offset != EndOfBuffer {
        ScanContinues(buffer, offset, read, decode);
        var next: nat := d.offset;
        ScanReadsInBounds(buffer, next, read, decode);
        InsideCons(buffer, offset, Scan(buffer, next, read, decode).headers);
      }
    }
  }

  /** Each header after the first is read at the offset the deserializer
      reported for the message before it. */
  lemma {:induction false} ScanFollowsOffsets<V, E>(buffer: seq<byte>, offset: nat, read: seq<byte> -> Header,
                                                     decode: (seq<byte>, nat) -> Deserialized<V, E>)
    requires Progressive(decode)
    ensures HeadersChained(buffer, Scan(buffer, offset, read, decode).headers, decode)
    decreases |buffer| - offset
  {
    if !TooShortForHeader(buffer, offset) && !BodyIncomplete(buffer, offset, read) {
      var d := decode(buffer, offset + HeaderSize);
      if d.Deserialized? && d.offset != EndOfBuffer {
        ScanContinues(buffer, offset, read, decode);
        var next: nat := d.offset;
        ScanFollowsOffsets(buffer, next, read, decode);
        ScanReadsInBounds(buffer, next, read, decode);
        ChainedCons(buffer, offset, Scan(buffer, next, read, decode).headers, decode);
      }
    }
  }

  /** Each record is exactly what the header and the deserializer give at
      its header position: the header's id and receptive flag with the
      deserialized value, or the error the deserializer threw there. */
  lemma {:induction false} ScanRecordsMatchHeaders<V, E>(buffer: seq<byte>, offset: nat, read: seq<byte> -> Header,
                                                          decode: (seq<byte>, nat) -> Deserialized<V, E>)
    requires Progressive(decode)
    ensures var r := Scan(buffer, offset, read, decode);
      forall i :: 0 <= i < |r.records| ==>
        r.headers[i] + HeaderSize <= |buffer| && r.records[i] == RecordAt(buffer, r.headers[i], read, decode)
    decreases |buffer| - offset
  {
    ScanReadsInBounds(buffer, offset, read, decode);
    if !TooShortForHeader(buffer, offset) && !BodyIncomplete(buffer, offset, read) {
      var d := decode(buffer, offset + HeaderSize);
      if d.Deserialized? && d.offset != EndOfBuffer {
        var next: nat := d.offset;
        ScanRecordsMatchHeaders(buffer, next, read, decode);
        var r := Scan(buffer, offset, read, decode);
        var tail := Scan(buffer, next, read, decode);
        var header := read(HeaderAt(buffer, offset));
        assert r.records == [Message(header.id, header.receptive, d.value)] + tail.records;
        assert r.headers == [offset] + tail.headers;
        assert r.records[0] == RecordAt(buffer, offset, read, decode);
        forall i | 1 <= i < |r.records|
          ensures r.headers[i] + HeaderSize <= |buffer| && r.records[i] == RecordAt(buffer, r.headers[i], read, decode)
        {
          assert r.headers[i] == tail.headers[i - 1];
          assert r.records[i] == tail.records[i - 1];
          assert var r' := Scan(buffer, next, read, decode);
            r'.records[i - 1] == RecordAt(buffer, r'.headers[i - 1], read, decode);
        }
      }
    }
  }

  /** Consecutive header positions strictly increase: the loop never reads
      the same header twice. */
  lemma HeadersAdvance<V, E>(buffer: seq<byte>, offset: nat, read: seq<byte> -> Header,
                             decode: (seq<byte>, nat) -> Deserialized<V, E>)
    requires Progressive(decode)
    ensures var r := Scan(buffer, offset, read, decode);
      forall i :: 0 <= i < |r.headers| - 1 ==> r.headers[i] + HeaderSize < r.headers[i + 1]
  {
    ScanFollowsOffsets(buffer, offset, read, decode);
  }

  /** Why the loop stopped when it carries the buffer: either at most a
      header's worth of bytes remain after the final offset, or the header
      there announces more bytes than the whole buffer holds. */
  lemma {:induction false} ScanCarryReason<V, E>(buffer: seq<byte>, offset: nat, read: seq<byte> -> Header,
                                                  decode: (seq<byte>, nat) -> Deserialized<V, E>)
    requires Progressive(decode)
    ensures var r := Scan(buffer, offset, read, decode);
      r.rest.Some? && |r.headers| == |r.records| ==> TooShortForHeader(buffer, r.offset)
    ensures var r := Scan(buffer, offset, read, decode);
      r.rest.Some? && |r.headers| > |r.records| ==>
        && r.headers[|r.records|] == r.offset
        && r.offset + HeaderSize < |buffer|
        && BodyIncomplete(buffer, r.offset, read)
    decreases |buffer| - offset
  {
    if !TooShortForHeader(buffer, offset) && !BodyIncomplete(buffer, offset, read) {
      var d := decode(buffer, offset + HeaderSize);
      if d.Deserialized? && d.offset != EndOfBuffer {
        ScanContinues(buffer, offset, read, decode);
        var next: nat := d.offset;
        ScanCarryReason(buffer, next, read, decode);
        var r := Scan(buffer, offset, read, decode);
        var tail := Scan(buffer, next, read, decode);
        if r.rest.Some? && |tail.headers| > |tail.records| {
          assert r.headers[|r.records|] == tail.headers[|tail.records|];
        }
      }
    }
  }

  /** A carried scan that yielded messages stopped at the offset the
      deserializer reported for the last of them. */
  ghost predicate ResumesAfterLast<V, E>(buffer: seq<byte>, r: Scanned<V, E>,
                                         decode: (seq<byte>, nat) -> Deserialized<V, E>) {
    r.rest.Some? && r.records != [] ==>
      && |r.records| <= |r.headers|
      && r.records[|r.records| - 1].Message?
      && decode(buffer, r.headers[|r.records| - 1] + HeaderSize)
           == Deserialized(r.records[|r.records| - 1].data, r.offset)
  }

  /** Putting one more message in front of a scan keeps its final offset tied to its last message. */
  lemma ResumesCons<V, E>(buffer: seq<byte>, first: nat, record: Record<V, E>, tail: Scanned<V, E>,
                          decode: (seq<byte>, nat) -> Deserialized<V, E>)
    requires ResumesAfterLast(buffer, tail, decode)
    requires |tail.records| <= |tail.headers|
    requires tail.records == [] && tail.rest.Some? ==>
               record.Message? && decode(buffer, first + HeaderSize) == Deserialized(record.data, tail.offset)
    ensures ResumesAfterLast(buffer, Scanned([record] + tail.records, [first] + tail.headers, tail.offset, tail.rest), decode)
  {
  }

  /** When the loop carries the buffer after yielding messages, the final
      offset is the one the deserializer reported for the last of them. */
  lemma {:induction false} ScanCarryResumes<V, E>(buffer: seq<byte>, offset: nat, read: seq<byte> -> Header,
                                                   decode: (seq<byte>, nat) -> Deserialized<V, E>)
    requires Progressive(decode)
    ensures ResumesAfterLast(buffer, Scan(buffer, offset, read, decode), decode)
    decreases |buffer| - offset
  {
    if !TooShortForHeader(buffer, offset) && !BodyIncomplete(buffer, offset, read) {
      var d := decode(buffer, offset + HeaderSize);
      if d.Deserialized? && d.offset != EndOfBuffer {
        ScanContinues(buffer, offset, read, decode);
        var next: nat := d.offset;
        ScanCarryResumes(buffer, next, read, decode);
        var header := read(HeaderAt(buffer, offset));
        ResumesCons(buffer, offset, Message(header.id, header.receptive, d.value),
                    Scan(buffer, next, read, decode), decode);
      }
    }
  }

  /** A scan that carries nothing yielded at least one record, and the last
      one is the error record or a value for which the deserializer
      reported the end-of-buffer sentinel. */
  ghost predicate EndsAtLast<V, E>(buffer: seq<byte>, r: Scanned<V, E>,
                                   decode: (seq<byte>, nat) -> Deserialized<V, E>) {
    r.rest.None? ==>
      && r.records != []
      && |r.headers| == |r.records|
      && (|| r.records[|r.records| - 1].FramingError?
          || decode(buffer, r.headers[|r.headers| - 1] + HeaderSize)
             == Deserialized(r.records[|r.records| - 1].data, EndOfBuffer))
  }

  /** Putting one more message in front of a scan does not change why it stopped. */
  lemma EndsCons<V, E>(buffer: seq<byte>, first: nat, record: Record<V, E>, tail: Scanned<V, E>,
                       decode: (seq<byte>, nat) -> Deserialized<V, E>)
    requires EndsAtLast(buffer, tail, decode)
    ensures EndsAtLast(buffer, Scanned([record] + tail.records, [first] + tail.headers, tail.offset, tail.rest), decode)
  {
  }

  /** Why the loop stopped when it carries nothing: it yielded at least one
      record, and the last one is the error record or a value for which the
      deserializer reported the end-of-buffer sentinel. */
  lemma {:induction false} ScanEndReason<V, E>(buffer: seq<byte>, offset: nat, read: seq<byte> -> Header,
                                                decode: (seq<byte>, nat) -> Deserialized<V, E>)
    requires Progressive(decode)
    ensures EndsAtLast(buffer, Scan(buffer, offset, read, decode), decode)
    decreases |buffer| - offset
  {
    if !TooShortForHeader(buffer, offset) && !BodyIncomplete(buffer, offset, read) {
      var d := decode(buffer, offset + HeaderSize);
      if d.Deserialized? && d.offset != EndOfBuffer {
        ScanContinues(buffer, offset, read, decode);
        var next: nat := d.offset;
        ScanEndReason(buffer, next, read, decode);
        var header := read(HeaderAt(buffer, offset));
        EndsCons(buffer, offset, Message(header.id, header.receptive, d.value),
                 Scan(buffer, next, read, decode), decode);
      }
    }
  }
}
