/** Feeding a queue a sequence of chunks, one `Queue.process` call per chunk,
    and how the records yielded depend on where the byte stream was split. */
module Delivery {
  import opened Wire
  import opened Queue
  import opened QueueState

  /** The bytes of all chunks, in delivery order. */
  function Concat(chunks: seq<seq<byte>>): seq<byte> {
    if chunks == [] then [] else Concat(chunks[..|chunks| - 1]) + chunks[|chunks| - 1]
  }

  /** One `process` call per chunk, in order; the records of all calls
      concatenated, and the queue after the last call. */
  function Feed<V, E, Entry>(q: State<Entry>, chunks: seq<seq<byte>>, read: seq<byte> -> Header,
                             decode: (seq<byte>, nat) -> Deserialized<V, E>): (r: Step<V, E, Entry>)
    requires Progressive(decode)
    // the pending-call table survives any number of calls untouched
    ensures r.state.pending == q.pending
    // calls that yield nothing consume nothing: the offset stays where it was
    ensures r.records == [] ==> r.state.offset == q.offset
  {
    if chunks == [] then Step([], q)
    else
      var before := Feed(q, chunks[..|chunks| - 1], read, decode);
      var last := Process(before.state, Some(chunks[|chunks| - 1]), read, decode);
      Step(before.records + last.records, last.state)
  }

  /** Any number of calls keeps a consistent queue consistent. */
  lemma {:induction false} FeedKeepsConsistent<V, E, Entry>(q: State<Entry>, chunks: seq<seq<byte>>,
                                                            read: seq<byte> -> Header,
                                                            decode: (seq<byte>, nat) -> Deserialized<V, E>)
    requires Progressive(decode)
    requires Consistent(q)
    ensures Consistent(Feed(q, chunks, read, decode).state)
  {
    if chunks != [] {
      var init := chunks[..|chunks| - 1];
      FeedKeepsConsistent(q, init, read, decode);
      ProcessKeepsConsistent(Feed(q, init, read, decode).state, Some(chunks[|chunks| - 1]), read, decode);
    }
  }

  /** A call that yields nothing is transparent: following it with a second
      chunk gives exactly what one call on both chunks together gives. */
  lemma QuietCallIsTransparent<V, E, Entry>(q: State<Entry>, first: seq<byte>, second: seq<byte>,
                                            read: seq<byte> -> Header,
                                            decode: (seq<byte>, nat) -> Deserialized<V, E>)
    requires Progressive(decode)
    requires Process(q, Some(first), read, decode).records == []
    ensures Process(Process(q, Some(first), read, decode).state, Some(second), read, decode)
            == Process(q, Some(first + second), read, decode)
  {
    var carried := Process(q, Some(first), read, decode).state;
    assert carried == q.(rest := WorkingBuffer(q, Some(first)));
    if q.rest.Some? {
      assert (q.rest.value + first) + second == q.rest.value + (first + second);
    }
  }

  /** Calls that together yield nothing leave the queue exactly as one call
      on all their bytes would. */
  lemma {:induction false} QuietFeedIsOneCall<V, E, Entry>(q: State<Entry>, chunks: seq<seq<byte>>,
                                                           read: seq<byte> -> Header,
                                                           decode: (seq<byte>, nat) -> Deserialized<V, E>)
    requires Progressive(decode)
    requires chunks != []
    requires Feed(q, chunks, read, decode).records == []
    ensures Feed(q, chunks, read, decode) == Process(q, Some(Concat(chunks)), read, decode)
  {
    var init := chunks[..|chunks| - 1];
    var last := chunks[|chunks| - 1];
    if init == [] {
      assert Concat(chunks) == last;
    } else {
      var before := Feed(q, init, read, decode);
      assert before.records == [];
      QuietFeedIsOneCall(q, init, read, decode);
      QuietCallIsTransparent(q, Concat(init), last, read, decode);
    }
  }

  /** Chunking invariance: when every call before the last yields nothing,
      the records and the final queue are those of one call on all the
      bytes, however they were split. */
  lemma ChunkingInvariance<V, E, Entry>(q: State<Entry>, chunks: seq<seq<byte>>,
                                        read: seq<byte> -> Header,
                                        decode: (seq<byte>, nat) -> Deserialized<V, E>)
    requires Progressive(decode)
    requires chunks != []
    requires Feed(q, chunks[..|chunks| - 1], read, decode).records == []
    ensures Feed(q, chunks, read, decode) == Process(q, Some(Concat(chunks)), read, decode)
  {
    var init := chunks[..|chunks| - 1];
    var last := chunks[|chunks| - 1];
    if init == [] {
      assert Concat(chunks) == last;
      assert Feed(q, init, read, decode) == Step([], q);
    } else {
      QuietFeedIsOneCall(q, init, read, decode);
      QuietCallIsTransparent(q, Concat(init), last, read, decode);
    }
  }

  /** A queue with nothing carried that receives a strict prefix of a message
      yields nothing and carries the prefix: either it is too short to hold a
      header, or its header is the message's header, whose length exceeds
      the prefix. */
  lemma PartialMessageIsCarried<V, E, Entry>(q: State<Entry>, prefix: seq<byte>, message: seq<byte>,
                                             read: seq<byte> -> Header,
                                             decode: (seq<byte>, nat) -> Deserialized<V, E>)
    requires Progressive(decode)
    requires q.offset == 0 && q.rest.None?
    requires |prefix| < |message| && prefix == message[..|prefix|]
    requires |message| > HeaderSize ==> read(message[..HeaderSize]).byteLength >= |message|
    ensures Process(q, Some(prefix), read, decode) == Step([], q.(rest := Some(prefix)))
  {
    if |prefix| > HeaderSize {
      assert prefix[0..HeaderSize] == message[..HeaderSize];
    }
  }

  /** Every call fed a strict prefix of a message, chunk by chunk, yields
      nothing. */
  lemma {:induction false} PartialMessageFeedIsQuiet<V, E, Entry>(q: State<Entry>, chunks: seq<seq<byte>>,
                                                                  message: seq<byte>,
                                                                  read: seq<byte> -> Header,
                                                                  decode: (seq<byte>, nat) -> Deserialized<V, E>)
    requires Progressive(decode)
    requires q.offset == 0 && q.rest.None?
    requires |Concat(chunks)| < |message| && Concat(chunks) == message[..|Concat(chunks)|]
    requires |message| > HeaderSize ==> read(message[..HeaderSize]).byteLength >= |message|
    ensures Feed(q, chunks, read, decode).records == []
  {
    if chunks != [] {
      var init := chunks[..|chunks| - 1];
      assert Concat(chunks) == Concat(init) + chunks[|chunks| - 1];
      assert Concat(init) == message[..|Concat(init)|];
      PartialMessageFeedIsQuiet(q, init, message, read, decode);
      ChunkingInvariance(q, chunks, read, decode);
      PartialMessageIsCarried(q, Concat(chunks), message, read, decode);
    }
  }

  /** A message delivered in any number of chunks, the last of which is not
      empty, yields exactly what delivering it whole yields, and only on the
      last call. */
  lemma SplitMessageMatchesWhole<V, E, Entry>(q: State<Entry>, init: seq<seq<byte>>, last: seq<byte>,
                                              message: seq<byte>,
                                              read: seq<byte> -> Header,
                                              decode: (seq<byte>, nat) -> Deserialized<V, E>)
    requires Progressive(decode)
    requires q.offset == 0 && q.rest.None?
    requires last != [] && Concat(init) + last == message
    requires |message| > HeaderSize ==> read(message[..HeaderSize]).byteLength >= |message|
    ensures Feed(q, init, read, decode).records == []
    ensures Feed(q, init + [last], read, decode) == Process(q, Some(message), read, decode)
  {
    var chunks := init + [last];
    assert chunks[..|chunks| - 1] == init;
    assert Concat(init) == message[..|Concat(init)|];
    PartialMessageFeedIsQuiet(q, init, message, read, decode);
    ChunkingInvariance(q, chunks, read, decode);
  }

  /** The message's bytes, one chunk per byte. */
  function Bytewise(message: seq<byte>): seq<seq<byte>> {
    seq(|message|, i requires 0 <= i < |message| => [message[i]])
  }

  /** Reassembling single-byte chunks gives the bytes back. */
  lemma {:induction false} BytewiseConcat(message: seq<byte>)
    ensures Concat(Bytewise(message)) == message
    decreases |message|
  {
    if message != [] {
      var init := message[..|message| - 1];
      BytewiseConcat(init);
      assert Bytewise(message)[..|message| - 1] == Bytewise(init);
    }
  }

  /** A message split byte by byte across single-byte chunks yields the same
      records, and leaves the same queue, as the whole message in one chunk. */
  lemma {:induction false} ByteByByteMatchesWhole<V, E, Entry>(q: State<Entry>, message: seq<byte>,
                                                               read: seq<byte> -> Header,
                                                               decode: (seq<byte>, nat) -> Deserialized<V, E>)
    requires Progressive(decode)
    requires q.offset == 0 && q.rest.None?
    requires message != []
    requires |message| > HeaderSize ==> read(message[..HeaderSize]).byteLength >= |message|
    ensures Feed(q, Bytewise(message), read, decode) == Process(q, Some(message), read, decode)
  {
    var chunks := Bytewise(message);
    BytewiseConcat(message);
    assert chunks == chunks[..|chunks| - 1] + [chunks[|chunks| - 1]];
    SplitMessageMatchesWhole(q, chunks[..|chunks| - 1], chunks[|chunks| - 1], message, read, decode);
  }

  /** A 20-byte message delivered as 15 bytes and then 5: the first call
      yields nothing, and the two calls together yield what the whole
      message yields from a new queue. */
  lemma FifteenThenFive<V, E, Entry>(message: seq<byte>, read: seq<byte> -> Header,
                                     decode: (seq<byte>, nat) -> Deserialized<V, E>)
    requires Progressive(decode)
    requires |message| == 20 && read(message[..HeaderSize]).byteLength == 20
    ensures Process(Fresh<Entry>(), Some(message[..15]), read, decode).records == []
    ensures Feed(Fresh<Entry>(), [message[..15], message[15..]], read, decode)
            == Process(Fresh<Entry>(), Some(message), read, decode)
  {
    var chunks := [message[..15], message[15..]];
    assert chunks[..1] == [message[..15]];
    assert Concat(chunks[..1]) == message[..15] by {
      assert Concat(chunks[..1][..0]) == [];
    }
    assert Concat(chunks) == message;
    SplitMessageMatchesWhole(Fresh<Entry>(), chunks[..1], message[15..], message, read, decode);
  }
}
