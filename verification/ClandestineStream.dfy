/**
 * The receiving side of a clandestine connection as a whole: the reader of node/src/stream_reader.rs
 * over the JSON discriminator, from the bytes of the socket to the messages for the dispatcher.
 */
module ClandestineStream {
  import opened Basics
  import opened JsonAutomaton
  import opened JsonMasquerading
  import opened Discriminating
  import opened StreamReading

  const JSON := [JsonMasquerader]

  /** The chunks that the JSON discriminator yields for the last of the pieces, having been drained after the others. */
  function JsonBehaviour(pieces: seq<Bytes>): seq<UnmaskedChunk> {
    if pieces == [] then []
    else
      var n := |pieces| - 1;
      Drain(JSON, DrainPieces(JSON, [], pieces[..n]).buffer + pieces[n]).chunks
  }

  function DataOf(piece: Piece): Bytes {
    piece.data
  }

  function ChunkOf(origin: Origin): UnmaskedChunk {
    origin.chunk
  }

  lemma {:induction false} ChunksOfOrigins(connect: bool, chunks: seq<UnmaskedChunk>)
    ensures Map(ChunkOf, Origins(connect, chunks)) == chunks
  {
    if chunks == [] {
    } else {
      ChunksOfOrigins(connect, chunks[1..]);
      assert Origins(connect, chunks)[1..] == Origins(connect, chunks[1..]);
    }
  }

  /** A single discriminator gets every piece. */
  lemma {:induction false} AllToTheFirst(pieces: seq<Piece>)
    ensures Sorted(1, pieces, false) == Map(DataOf, pieces)
  {
    if pieces == [] {
    } else {
      var n := |pieces| - 1;
      AllToTheFirst(pieces[..n]);
      assert pieces == pieces[..n] + [pieces[n]];
      MapConcat(DataOf, pieces[..n], [pieces[n]]);
      assert Map(DataOf, [pieces[n]]) == [pieces[n].data];
    }
  }

  /** What the JSON discriminator yields over any pieces is what draining after each of them delivers. */
  lemma {:induction false} JsonYields(pieces: seq<Piece>)
    ensures Map(ChunkOf, Yielded([JsonBehaviour], pieces)) == DrainPieces(JSON, [], Map(DataOf, pieces)).chunks
  {
    if pieces == [] {
    } else {
      var n := |pieces| - 1;
      var init, last := pieces[..n], pieces[n];
      var datas := Map(DataOf, init);
      JsonYields(init);
      assert Map(DataOf, pieces) == datas + [last.data] by {
        assert pieces == init + [last];
        MapConcat(DataOf, init, [last]);
        assert Map(DataOf, [last]) == [last.data];
      }
      AllToTheFirst(pieces);
      assert (datas + [last.data])[..|datas|] == datas;
      var chunks := JsonBehaviour(datas + [last.data]);
      hide Map, Drain, Sorted;
      DrainPiecesSnoc(JSON, [], datas, last.data);
      assert Yielded([JsonBehaviour], pieces) == Yielded([JsonBehaviour], init) + Origins(last.connect, chunks);
      MapConcat(ChunkOf, Yielded([JsonBehaviour], init), Origins(last.connect, chunks));
      ChunksOfOrigins(last.connect, chunks);
    }
  }

  /**
   * From masked bytes to the dispatcher: when the bytes a reader handles over any run are masked
   * payloads with brace-free garbage around them, cut into reads anywhere, and its discriminator is
   * the JSON one, it sends exactly the payloads, in order, once each. None consumes a sequence number.
   */
  lemma {:induction false} ClandestineDelivery(polls: seq<seq<ReadAnswer>>, payloads: seq<Bytes>, gaps: seq<Bytes>)
    requires AllFit(polls) && |gaps| == |payloads| + 1 && BraceFree(gaps)
    requires Flatten(Map(DataOf, HandledByRun(polls))) == Weave(gaps, MaskEach(payloads))
    ensures var messages := RunReader([JsonBehaviour], true, polls).0.messages;
            && |messages| == |payloads|
            && forall i :: 0 <= i < |payloads| ==>
                 messages[i].data == payloads[i] && (messages[i].number.Some? ==> messages[i].number.value == 0)
  {
    hide RunReader, HandledByRun, Yielded, Sorted, Flatten, Map, Weave, Mask, Drain, DrainPieces, JsonBehaviour;
    var pieces := HandledByRun(polls);
    var r := RunReader([JsonBehaviour], true, polls).0;
    RunRoutes([JsonBehaviour], true, polls);
    JsonYields(pieces);
    DrainedDelivery(payloads, gaps, Map(DataOf, pieces));
    RunIsWellNumbered([JsonBehaviour], true, polls);
    assert Map(ChunkOf, r.origins) == Chunks(payloads);
    forall i | 0 <= i < |payloads|
      ensures i < |r.messages| && r.messages[i].data == payloads[i]
      ensures r.messages[i].number.Some? ==> r.messages[i].number.value == 0
    {
      MapAt(ChunkOf, r.origins, i);
      MapAt(TextChunk, payloads, i);
    }
  }
}
