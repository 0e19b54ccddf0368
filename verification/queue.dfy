/** The queue's incremental message reassembler. A queue holds a read
    offset into its working buffer, the bytes carried over from the previous
    call, and the table of pending calls keyed by message id. `Process`
    takes the next chunk of bytes (or none) and yields every message record
    that can be framed from the carried bytes followed by the chunk. */
module Queue {
  import opened Wire

  /** One record yielded by `Process`: a decoded message, or the error record
      produced when the deserializer throws. The source represents the error
      record as `{id: null, receptive: false, data: error}`; `Id` and
      `Receptive` give that view. */
  datatype Record<+V, +E> =
    | Message(id: int, receptive: bool, data: V)
    | FramingError(error: E)
  {
    function Id(): Option<int> {
      if Message? then Some(id) else None
    }

    predicate Receptive() {
      Message? && receptive
    }
  }

  /** The mutable part of a queue (`offset`, `_rest`) together with the
      pending-call table it owns. `Entry` is the opaque pending-call record. */
  datatype State<Entry> = State(offset: nat, rest: Option<seq<byte>>, pending: map<int, Entry>)

  /** The states a queue can be in between calls: with nothing carried the
      offset is 0, and with bytes carried the offset lies within them. */
  ghost predicate Consistent<Entry>(q: State<Entry>) {
    && (q.rest.None? ==> q.offset == 0)
    && (q.rest.Some? ==> q.offset <= |q.rest.value|)
  }

  /** A newly constructed queue: offset 0, nothing carried, no pending calls. */
  function Fresh<Entry>(): State<Entry> {
    State(0, None, map[])
  }

  /** What one pass of the scanning loop over a working buffer produces:
      the records yielded, the offsets at which a header was read, and the
      final values of `offset` and `_rest`. */
  datatype Scanned<V, E> = Scanned(records: seq<Record<V, E>>, headers: seq<nat>, offset: nat, rest: Option<seq<byte>>)

  /** The result of one `Process` call: the records it yields and the queue after it. */
  datatype Step<V, E, Entry> = Step(records: seq<Record<V, E>>, state: State<Entry>)

  /** Fewer than a header's worth of bytes -- or exactly a header's worth --
      lie after `offset`, so the loop buffers instead of reading a header. */
  predicate TooShortForHeader(buffer: seq<byte>, offset: nat) {
    |buffer| - offset <= HeaderSize
  }

  /** The header bytes at `offset`. */
  function HeaderAt(buffer: seq<byte>, offset: nat): seq<byte>
    requires offset + HeaderSize <= |buffer|
  {
    buffer[offset..offset + HeaderSize]
  }

  /** The header at `offset` announces more bytes than the whole working
      buffer holds, so the message is not complete yet. */
  predicate BodyIncomplete(buffer: seq<byte>, offset: nat, read: seq<byte> -> Header)
    requires offset + HeaderSize <= |buffer|
  {
    read(HeaderAt(buffer, offset)).byteLength > |buffer|
  }

  /** The record a message whose header starts at `pos` gives: the header's
      id and receptive flag with the deserialized value, or the error record. */
  function RecordAt<V, E>(buffer: seq<byte>, pos: nat, read: seq<byte> -> Header,
                          decode: (seq<byte>, nat) -> Deserialized<V, E>): Record<V, E>
    requires pos + HeaderSize <= |buffer|
  {
    match decode(buffer, pos + HeaderSize)
    case Thrown(error) => FramingError(error)
    case Deserialized(value, _) =>
      var header := read(HeaderAt(buffer, pos));
      Message(header.id, header.receptive, value)
  }

  /** The scanning loop of `process` over one working buffer, starting at `offset`. */
  function Scan<V, E>(buffer: seq<byte>, offset: nat, read: seq<byte> -> Header,
                      decode: (seq<byte>, nat) -> Deserialized<V, E>): (r: Scanned<V, E>)
    requires Progressive(decode)
    // one header read per record, plus one for a message whose header announces
    // more bytes than the whole buffer holds
    ensures |r.records| <= |r.headers| <= |r.records| + 1
    ensures r.rest.None? ==> |r.headers| == |r.records|
    // the error record, if any, is the last record
    ensures forall i :: 0 <= i < |r.records| - 1 ==> r.records[i].Message?
    // carried: the whole working buffer is kept, and no error record was yielded
    ensures r.rest.Some? ==> r.rest.value == buffer
    ensures r.rest.Some? ==> forall i :: 0 <= i < |r.records| ==> r.records[i].Message?
    // a scan that yields nothing consumes nothing
    ensures r.records == [] ==> r.rest == Some(buffer) && r.offset == offset
    // consumed: the offset resets once the scan stops without carrying
    ensures r.rest.None? ==> r.offset == 0
    decreases |buffer| - offset
  {
    if TooShortForHeader(buffer, offset) then
      Scanned([], [], offset, Some(buffer))
    else if BodyIncomplete(buffer, offset, read) then
      Scanned([], [offset], offset, Some(buffer))
    else
      var header := read(HeaderAt(buffer, offset));
      match decode(buffer, offset + HeaderSize)
      case Thrown(error) =>
        Scanned([FramingError(error)], [offset], 0, None)
      case Deserialized(value, next) =>
        var record := Message(header.id, header.receptive, value);
        if next == EndOfBuffer then
          Scanned([record], [offset], 0, None)
        else
          var tail := Scan(buffer, next, read, decode);
          Scanned([record] + tail.records, [offset] + tail.headers, tail.offset, tail.rest)
  }

  /** The buffer the loop scans: the carried bytes followed by the chunk when
      bytes are carried, the chunk alone otherwise. */
  function WorkingBuffer<Entry>(q: State<Entry>, chunk: Option<seq<byte>>): Option<seq<byte>>
    requires q.rest.Some? ==> chunk.Some?
  {
    if q.rest.Some? then Some(q.rest.value + chunk.value) else chunk
  }

  /** `Queue.process`: fold the carry into the chunk, then scan. */
  function Process<V, E, Entry>(q: State<Entry>, chunk: Option<seq<byte>>, read: seq<byte> -> Header,
                                decode: (seq<byte>, nat) -> Deserialized<V, E>): (r: Step<V, E, Entry>)
    requires q.rest.Some? ==> chunk.Some?
    requires Progressive(decode)
    // the pending-call table is never touched
    ensures r.state.pending == q.pending
    // no chunk and no carry: nothing is yielded and nothing changes
    ensures q.rest.None? && chunk.None? ==> r.records == [] && r.state == q
    // the error record, if any, is the last record
    ensures forall i :: 0 <= i < |r.records| - 1 ==> r.records[i].Message?
    // bytes are either carried whole or consumed
    ensures r.state.rest.Some? ==> r.state.rest == WorkingBuffer(q, chunk)
    ensures r.state.rest.None? && WorkingBuffer(q, chunk).Some? ==> r.state.offset == 0 && r.records != []
    // a call that yields nothing consumes nothing: it carries the working buffer at the same offset
    ensures r.records == [] ==> r.state.offset == q.offset && r.state.rest == WorkingBuffer(q, chunk)
    // after the error record the queue starts afresh
    ensures r.records != [] && r.records[|r.records| - 1].FramingError? ==>
              r.state == q.(offset := 0, rest := None)
  {
    match WorkingBuffer(q, chunk)
    case None => Step([], q)
    case Some(buffer) =>
      var s := Scan(buffer, q.offset, read, decode);
      Step(s.records, q.(offset := s.offset, rest := s.rest))
  }

  /** The scanning loop of `process` as the source writes it: a loop with
      early exits that updates the offset and the carry in place. */
  method ScanLoop<V, E>(buffer: seq<byte>, start: nat, read: seq<byte> -> Header,
                        decode: (seq<byte>, nat) -> Deserialized<V, E>)
    returns (records: seq<Record<V, E>>, offset: nat, rest: Option<seq<byte>>)
    requires Progressive(decode)
    ensures Scanned(records, Scan(buffer, start, read, decode).headers, offset, rest)
            == Scan(buffer, start, read, decode)
  {
    ghost var goal := Scan(buffer, start, read, decode);
    records := [];
    offset := start;
    rest := None;
    while true
      invariant rest.None?
      invariant var s := Scan(buffer, offset, read, decode);
                goal.records == records + s.records && goal.offset == s.offset && goal.rest == s.rest
      decreases |buffer| - offset
    {
      if TooShortForHeader(buffer, offset) {
        rest := Some(buffer);
        break;
      }
      var header := read(HeaderAt(buffer, offset));
      if BodyIncomplete(buffer, offset, read) {
        rest := Some(buffer);
        break;
      }
      match decode(buffer, offset + HeaderSize) {
        case Thrown(error) =>
          offset := 0;
          records := records + [FramingError(error)];
          break;
        case Deserialized(value, next) =>
          records := records + [Message(header.id, header.receptive, value)];
          if next == EndOfBuffer {
            offset := 0;
            break;
          }
          assert records + Scan(buffer, next, read, decode).records == goal.records;
          offset := next;
      }
    }
  }

  /** `Queue.process` as the source writes it: fold the carry into the
      chunk, clear the carry, and run the scanning loop on the result. */
  method ProcessLoop<V, E, Entry>(q: State<Entry>, chunk: Option<seq<byte>>, read: seq<byte> -> Header,
                                  decode: (seq<byte>, nat) -> Deserialized<V, E>)
    returns (records: seq<Record<V, E>>, q': State<Entry>)
    requires q.rest.Some? ==> chunk.Some?
    requires Progressive(decode)
    ensures Step(records, q') == Process(q, chunk, read, decode)
  {
    var buffer := chunk;
    var rest := q.rest;
    if rest.Some? {
      buffer := Some(rest.value + chunk.value);
      rest := None;
    }
    if buffer.Some? {
      var offset;
      records, offset, rest := ScanLoop(buffer.value, q.offset, read, decode);
      q' := q.(offset := offset, rest := rest);
    } else {
      records := [];
      q' := q;
    }
  }
}
