/** The body-incomplete guard of `Queue.process` compares the header's
    `byteLength` -- the whole message's length -- with the length of the
    whole working buffer. For a message that starts at a non-zero offset the
    bytes available to it are only those after the offset, so the guard can
    let a message whose body has not fully arrived through to the
    deserializer. This module exhibits that, and proves that the guard
    measured from the offset never does it. */
module GuardFinding {
  import opened Wire
  import opened Queue

  /** A header reader that announces a 20-byte message whatever the bytes. */
  function TwentyByteHeaders(bytes: seq<byte>): Header {
    Header(0, false, 20)
  }

  /** A deserializer whose values are 9 bytes long: it throws when fewer than
      9 bytes follow the start offset, and reports the end-of-buffer sentinel
      when the value ends exactly at the end of the buffer. */
  function NineByteValues(buffer: seq<byte>, start: nat): Deserialized<int, int> {
    if start + 9 > |buffer| then Thrown(0)
    else if start + 9 == |buffer| then Deserialized(0, EndOfBuffer)
    else Deserialized(0, start + 9)
  }

  lemma NineByteValuesProgress()
    ensures Progressive(NineByteValues)
  {
  }

  /** Counterexample, as written: one whole 20-byte message followed by the
      first 15 bytes of a second one. The second header announces 20 bytes,
      which does not exceed the 35 bytes of the buffer, so the guard lets it
      through; the deserializer finds only 4 of its 9 value bytes and
      throws, the error record is yielded, and the 15 bytes are dropped
      instead of being carried until the rest arrives. */
  lemma WholeBufferGuardDropsSplitMessage()
    ensures Progressive(NineByteValues)
    ensures var buffer := seq(35, i => 0 as byte);
            var header := TwentyByteHeaders(buffer[20..20 + HeaderSize]);
            var r := Scan(buffer, 0, TwentyByteHeaders, NineByteValues);
            && 20 + header.byteLength > |buffer|
            && r.records == [Message(0, false, 0), FramingError(0)]
            && r.rest.None?
  {
    NineByteValuesProgress();
    var buffer := seq(35, i => 0 as byte);
    assert Scan(buffer, 20, TwentyByteHeaders, NineByteValues).records == [FramingError(0)];
  }

  /** The scanning loop with the body-incomplete guard measured from the
      offset: a message is carried while the bytes from its header onward
      are fewer than its announced length. */
  function ScanGuarded<V, E>(buffer: seq<byte>, offset: nat, read: seq<byte> -> Header,
                             decode: (seq<byte>, nat) -> Deserialized<V, E>): (r: Scanned<V, E>)
    requires Progressive(decode)
    ensures |r.records| <= |r.headers|
    ensures forall i :: 0 <= i < |r.headers| ==> r.headers[i] + HeaderSize < |buffer|
    // every record comes from a message that lies wholly inside the buffer
    ensures forall i :: 0 <= i < |r.records| ==>
              r.headers[i] + read(HeaderAt(buffer, r.headers[i])).byteLength <= |buffer|
    // bytes are carried whole, with the offset of the first message not yet complete
    ensures r.rest.Some? ==> r.rest.value == buffer
    ensures r.rest.Some? && |r.headers| > |r.records| ==>
              r.offset + HeaderSize < |buffer| && r.offset + read(HeaderAt(buffer, r.offset)).byteLength > |buffer|
    decreases |buffer| - offset
  {
    if TooShortForHeader(buffer, offset) then
      Scanned([], [], offset, Some(buffer))
    else
      var header := read(HeaderAt(buffer, offset));
      if offset + header.byteLength > |buffer| then
        Scanned([], [offset], offset, Some(buffer))
      else
        match decode(buffer, offset + HeaderSize)
        case Thrown(error) =>
          Scanned([FramingError(error)], [offset], 0, None)
        case Deserialized(value, next) =>
          var record := Message(header.id, header.receptive, value);
          if next == EndOfBuffer then
            Scanned([record], [offset], 0, None)
          else
            var tail := ScanGuarded(buffer, next, read, decode);
            Scanned([record] + tail.records, [offset] + tail.headers, tail.offset, tail.rest)
  }

  /** Corrected, on the same input: the first message is yielded and the
      15 bytes of the second are carried at offset 20, so once its last 5
      bytes arrive the second message is yielded too. */
  lemma OffsetGuardCarriesSplitMessage()
    ensures Progressive(NineByteValues)
    ensures var buffer := seq(35, i => 0 as byte);
            var r := ScanGuarded(buffer, 0, TwentyByteHeaders, NineByteValues);
            && r.records == [Message(0, false, 0)]
            && r.offset == 20 && r.rest == Some(buffer)
    ensures var buffer := seq(40, i => 0 as byte);
            ScanGuarded(buffer, 20, TwentyByteHeaders, NineByteValues).records == [Message(0, false, 0)]
  {
    NineByteValuesProgress();
    var buffer := seq(35, i => 0 as byte);
    assert ScanGuarded(buffer, 20, TwentyByteHeaders, NineByteValues).records == [];
  }
}
