/**
 * The discriminator of node/src/discriminator.rs, which turns frames back into payloads, and the
 * end-to-end law of the clandestine stream codec.
 */
module Discriminating {
  import opened Basics
  import opened JsonAutomaton
  import opened JsonFraming
  import opened JsonMasquerading

  datatype Masquerader = JsonMasquerader | NullMasquerader {
    function TryUnmask(item: Bytes): Result<UnmaskedChunk, MasqueradeError> {
      match this
      case JsonMasquerader => Unmask(item)
      case NullMasquerader => Ok(UnmaskedChunk(item, true, true))
    }
  }

  /** The chunk of the first masquerader that understands the frame. */
  function FirstUnmasked(masqueraders: seq<Masquerader>, frame: Bytes): Option<UnmaskedChunk> {
    if masqueraders == [] then None
    else
      match masqueraders[0].TryUnmask(frame)
      case Ok(chunk) => Some(chunk)
      case Err(_) => FirstUnmasked(masqueraders[1..], frame)
  }

  /** The answer taken is that of the first masquerader that has one; there is none only if all refuse. */
  lemma {:induction false} FirstUnmaskedMeans(masqueraders: seq<Masquerader>, frame: Bytes, i: nat)
    requires i <= |masqueraders| && forall j :: 0 <= j < i ==> masqueraders[j].TryUnmask(frame).Err?
    requires i < |masqueraders| ==> masqueraders[i].TryUnmask(frame).Ok?
    ensures FirstUnmasked(masqueraders, frame)
            == if i < |masqueraders| then Some(masqueraders[i].TryUnmask(frame).value) else None
  {
    hide Unmask;
    if i == 0 {
    } else {
      FirstUnmaskedMeans(masqueraders[1..], frame, i - 1);
    }
  }

  /** A clear stream's chunks are its frames as they are, and are to be numbered; masked ones are not. */
  lemma {:induction false} ClearOrMasked(frame: Bytes)
    ensures FirstUnmasked([NullMasquerader], frame) == Some(UnmaskedChunk(frame, true, true))
    ensures FirstUnmasked([JsonMasquerader, NullMasquerader], frame)
            == Some(if Unmask(frame).Ok? then Unmask(frame).value else UnmaskedChunk(frame, true, true))
  {
    hide Unmask;
    var both := [JsonMasquerader, NullMasquerader];
    FirstUnmaskedMeans([NullMasquerader], frame, 0);
    FirstUnmaskedMeans(both, frame, if Unmask(frame).Ok? then 0 else 1);
  }

  datatype TakenChunk = TakenChunk(chunk: Option<UnmaskedChunk>, buffer: Bytes)

  /** One `take_chunk`: a frame that no masquerader understands is lost, and looks like an empty buffer. */
  function TakeChunkFrom(masqueraders: seq<Masquerader>, buffer: Bytes): TakenChunk {
    var taken := Take(buffer);
    TakenChunk(if taken.frame.None? then None else FirstUnmasked(masqueraders, taken.frame.value), taken.buffer)
  }

  class Discriminator {
    const framer: JsonFramer
    const masqueraders: seq<Masquerader>

    constructor (framer: JsonFramer, masqueraders: seq<Masquerader>)
      requires masqueraders != []
      ensures this.framer == framer && this.masqueraders == masqueraders
    {
      this.framer, this.masqueraders := framer, masqueraders;
    }

    method AddData(data: Bytes)
      modifies framer
      ensures framer.dataSoFar == old(framer.dataSoFar) + data
    {
      framer.AddData(data);
    }

    method TakeChunk() returns (chunk: Option<UnmaskedChunk>)
      modifies framer
      ensures TakenChunk(chunk, framer.dataSoFar) == TakeChunkFrom(masqueraders, old(framer.dataSoFar))
    {
      var frame := framer.TakeFrame();
      if frame == None {
        return None;
      }
      for i := 0 to |masqueraders|
        invariant FirstUnmasked(masqueraders, frame.value) == FirstUnmasked(masqueraders[i..], frame.value)
      {
        var result := masqueraders[i].TryUnmask(frame.value);
        assert masqueraders[i..][1..] == masqueraders[i + 1..];
        if result.Ok? {
          return Some(result.value);
        }
      }
      chunk := None;
    }
  }

  // Sessions of add_data and take_chunk

  datatype ChunkSession = ChunkSession(buffer: Bytes, chunks: seq<UnmaskedChunk>)

  function Optional<T>(x: Option<T>): seq<T> {
    if x.Some? then [x.value] else []
  }

  function PlayChunks(masqueraders: seq<Masquerader>, ops: seq<Op>): ChunkSession {
    if ops == [] then ChunkSession([], [])
    else
      var s := PlayChunks(masqueraders, ops[..|ops| - 1]);
      match ops[|ops| - 1]
      case Add(data) => s.(buffer := s.buffer + data)
      case TakeOne =>
        var taken := TakeChunkFrom(masqueraders, s.buffer);
        ChunkSession(taken.buffer, s.chunks + Optional(taken.chunk))
  }

  /** The chunks of those frames that some masquerader understands, in order. */
  function UnmaskEach(masqueraders: seq<Masquerader>, frames: seq<Bytes>): seq<UnmaskedChunk> {
    if frames == [] then []
    else Optional(FirstUnmasked(masqueraders, frames[0])) + UnmaskEach(masqueraders, frames[1..])
  }

  lemma {:induction false} UnmaskEachConcat(masqueraders: seq<Masquerader>, a: seq<Bytes>, b: seq<Bytes>)
    ensures UnmaskEach(masqueraders, a + b) == UnmaskEach(masqueraders, a) + UnmaskEach(masqueraders, b)
    decreases |a|
  {
    hide FirstUnmasked, Optional;
    if a == [] {
      assert a + b == b;
    } else {
      assert (a + b)[1..] == a[1..] + b;
      UnmaskEachConcat(masqueraders, a[1..], b);
    }
  }

  /** The discriminator delivers the unmasked frames of its framer, whatever the stream. */
  lemma {:induction false} ChunksAreUnmaskedFrames(masqueraders: seq<Masquerader>, ops: seq<Op>)
    ensures PlayChunks(masqueraders, ops)
            == ChunkSession(Play(ops).buffer, UnmaskEach(masqueraders, Play(ops).frames))
    decreases |ops|
  {
    hide FirstUnmasked, Take;
    if ops == [] {
    } else {
      var before := ops[..|ops| - 1];
      ChunksAreUnmaskedFrames(masqueraders, before);
      if ops[|ops| - 1].TakeOne? {
        var s := Play(before);
        var frame := Take(s.buffer).frame;
        UnmaskEachConcat(masqueraders, s.frames, Optional(frame));
        assert frame.Some? ==> UnmaskEach(masqueraders, [frame.value][1..]) == [];
      }
    }
  }

  // End to end

  function TextChunk(payload: Bytes): UnmaskedChunk {
    UnmaskedChunk(payload, true, false)
  }

  function Chunks(payloads: seq<Bytes>): seq<UnmaskedChunk> {
    Map(TextChunk, payloads)
  }

  function MaskEach(payloads: seq<Bytes>): (masked: seq<Bytes>)
    ensures |masked| == |payloads|
  {
    Map(Mask, payloads)
  }

  lemma {:induction false} UnderstandsMask(payload: Bytes)
    ensures FirstUnmasked([JsonMasquerader], Mask(payload)) == Some(UnmaskedChunk(payload, true, false))
  {
    UnmaskMask(payload);
  }

  lemma {:induction false} UnmaskMaskEach(payloads: seq<Bytes>)
    ensures UnmaskEach([JsonMasquerader], MaskEach(payloads)) == Chunks(payloads)
  {
    if payloads == [] {
    } else {
      UnderstandsMask(payloads[0]);
      UnmaskMaskEach(payloads[1..]);
      assert MaskEach(payloads)[1..] == MaskEach(payloads[1..]);
    }
  }

  lemma {:induction false} ReadMasked(payloads: seq<Bytes>, gaps: seq<Bytes>)
    requires |gaps| == |payloads| + 1 && BraceFree(gaps)
    ensures Read(Idle, Weave(gaps, MaskEach(payloads))) == Reading(Idle, MaskEach(payloads))
  {
    var frames := MaskEach(payloads);
    forall i | 0 <= i < |frames| ensures IsFrame(frames[i]) {
      MapAt(Mask, payloads, i);
      MaskIsFrame(payloads[i]);
    }
    ReadsTheSplit(gaps, frames, []);
    var s := Weave(gaps, frames);
    assert s + [] == s;
    var _ := Conservation(s);
  }

  lemma {:induction false} FramesInOrder(payloads: seq<Bytes>, gaps: seq<Bytes>, ops: seq<Op>)
    requires |gaps| == |payloads| + 1 && BraceFree(gaps)
    requires Stream(ops) <= Weave(gaps, MaskEach(payloads))
    ensures Play(ops).frames <= MaskEach(payloads)
  {
    hide Read, Play, Stream, Weave, Map, Mask, BraceFree;
    var whole := Weave(gaps, MaskEach(payloads));
    var arrived := Stream(ops);
    var later := whole[|arrived|..];
    assert whole == arrived + later;
    ReadMasked(payloads, gaps);
    ReadConcat(Idle, arrived, later);
    SessionRefinesOnePass(ops);
  }

  /**
   * Safety at every moment: while a stream of masked payloads, with brace-free garbage around
   * them, arrives in any fragments, the chunks delivered are an initial part of the payloads.
   */
  lemma {:induction false} DeliversInOrder(payloads: seq<Bytes>, gaps: seq<Bytes>, ops: seq<Op>)
    requires |gaps| == |payloads| + 1 && BraceFree(gaps)
    requires Stream(ops) <= Weave(gaps, MaskEach(payloads))
    ensures PlayChunks([JsonMasquerader], ops).chunks <= Chunks(payloads)
  {
    hide Read, Weave, Stream, Play, PlayChunks, UnmaskEach, Map, Mask;
    FramesInOrder(payloads, gaps, ops);
    var k := |Play(ops).frames|;
    assert payloads == payloads[..k] + payloads[k..];
    MapConcat(Mask, payloads[..k], payloads[k..]);
    MapConcat(TextChunk, payloads[..k], payloads[k..]);
    assert Play(ops).frames == MaskEach(payloads[..k]);
    UnmaskMaskEach(payloads[..k]);
    ChunksAreUnmaskedFrames([JsonMasquerader], ops);
  }

  /**
   * End to end: masking any payloads, concatenating them with any brace-free garbage, cutting the
   * result anywhere and draining it gives back exactly the payloads, in order, once each.
   */
  lemma {:induction false} EndToEnd(payloads: seq<Bytes>, gaps: seq<Bytes>, ops: seq<Op>)
    requires |gaps| == |payloads| + 1 && BraceFree(gaps)
    requires Stream(ops) == Weave(gaps, MaskEach(payloads))
    requires TakeChunkFrom([JsonMasquerader], PlayChunks([JsonMasquerader], ops).buffer).chunk == None
    ensures PlayChunks([JsonMasquerader], ops).chunks == Chunks(payloads)
  {
    hide Read, Weave, Stream, Play, PlayChunks, Map, Mask, Take, UnmaskEach;
    var s := Play(ops);
    SessionRefinesOnePass(ops);
    ReadMasked(payloads, gaps);
    ChunksAreUnmaskedFrames([JsonMasquerader], ops);
    TakeReads(s.buffer);
    assert MaskEach(payloads) == s.frames + Read(Idle, s.buffer).frames;
    var frame := Take(s.buffer).frame;
    if frame.Some? {
      MapAt(Mask, payloads, |s.frames|);
      assert frame.value == Mask(payloads[|s.frames|]);
      UnderstandsMask(payloads[|s.frames|]);
    }
    assert s.frames + [] == s.frames;
    UnmaskMaskEach(payloads);
  }

  // The drain loop of node/src/stream_reader.rs: take chunks until none comes

  function Drain(masqueraders: seq<Masquerader>, buffer: Bytes): ChunkSession
    decreases |buffer|
  {
    var taken := TakeChunkFrom(masqueraders, buffer);
    if taken.chunk.None? then ChunkSession(taken.buffer, [])
    else
      TakeReads(buffer);
      var rest := Drain(masqueraders, taken.buffer);
      ChunkSession(rest.buffer, [taken.chunk.value] + rest.chunks)
  }

  /** What the reader does with a discriminator on each read: it adds the bytes and takes chunks until none comes. */
  method AddAndDrain(discriminator: Discriminator, data: Bytes) returns (chunks: seq<UnmaskedChunk>)
    modifies discriminator.framer
    ensures ChunkSession(discriminator.framer.dataSoFar, chunks)
            == Drain(discriminator.masqueraders, old(discriminator.framer.dataSoFar) + data)
  {
    hide Take, Read, FirstUnmasked;
    discriminator.AddData(data);
    ghost var whole := Drain(discriminator.masqueraders, discriminator.framer.dataSoFar);
    chunks := [];
    while true
      invariant var rest := Drain(discriminator.masqueraders, discriminator.framer.dataSoFar);
                whole == ChunkSession(rest.buffer, chunks + rest.chunks)
      decreases |discriminator.framer.dataSoFar|
    {
      TakeReads(discriminator.framer.dataSoFar);
      var chunk := discriminator.TakeChunk();
      if chunk == None {
        break;
      }
      chunks := chunks + [chunk.value];
    }
  }

  ghost predicate Understood(masqueraders: seq<Masquerader>, frame: Bytes) {
    FirstUnmasked(masqueraders, frame).Some?
  }

  /**
   * Draining does not always empty the buffer: it stops at the first frame that is not understood.
   * It leaves no complete frame behind exactly when every frame but the last is understood.
   */
  lemma {:induction false} DrainEmptiesIff(masqueraders: seq<Masquerader>, buffer: Bytes)
    ensures var frames := Read(Idle, buffer).frames;
            Read(Idle, Drain(masqueraders, buffer).buffer).frames == []
            <==> forall i :: 0 <= i < |frames| - 1 ==> Understood(masqueraders, frames[i])
    decreases |buffer|
  {
    var frames := Read(Idle, buffer).frames;
    var taken := Take(buffer);
    TakeReads(buffer);
    if taken.frame.Some? {
      var rest := Read(Idle, taken.buffer).frames;
      assert frames == [taken.frame.value] + rest;
      if Understood(masqueraders, taken.frame.value) {
        DrainEmptiesIff(masqueraders, taken.buffer);
        assert forall i :: 0 <= i < |rest| ==> rest[i] == frames[i + 1];
        assert forall i :: 0 < i < |frames| ==> frames[i] == rest[i - 1];
      } else {
        assert Drain(masqueraders, buffer).buffer == taken.buffer;
        assert frames[0] == taken.frame.value;
      }
    }
  }

  ghost predicate AllUnderstood(masqueraders: seq<Masquerader>, frames: seq<Bytes>) {
    forall i :: 0 <= i < |frames| ==> Understood(masqueraders, frames[i])
  }

  /** A drain with nothing to stall at delivers every frame and keeps only the unfinished one. */
  lemma {:induction false} DrainAll(masqueraders: seq<Masquerader>, buffer: Bytes)
    requires AllUnderstood(masqueraders, Read(Idle, buffer).frames)
    ensures var r := Read(Idle, buffer);
            Drain(masqueraders, buffer) == ChunkSession(r.final.Held(), UnmaskEach(masqueraders, r.frames))
    decreases |buffer|
  {
    hide Read, FirstUnmasked, Take;
    var frames := Read(Idle, buffer).frames;
    var taken := Take(buffer);
    TakeReads(buffer);
    if taken.frame.Some? {
      assert frames[0] == taken.frame.value && frames[1..] == Read(Idle, taken.buffer).frames;
      assert Understood(masqueraders, frames[0]);
      DrainAll(masqueraders, taken.buffer);
    }
  }

  /** The reader's use of a discriminator: each piece that arrives is added, then drained. */
  function DrainPieces(masqueraders: seq<Masquerader>, buffer: Bytes, pieces: seq<Bytes>): ChunkSession
    decreases |pieces|
  {
    if pieces == [] then ChunkSession(buffer, [])
    else
      var first := Drain(masqueraders, buffer + pieces[0]);
      var rest := DrainPieces(masqueraders, first.buffer, pieces[1..]);
      ChunkSession(rest.buffer, first.chunks + rest.chunks)
  }

  lemma {:induction false} DrainPiecesSnoc(masqueraders: seq<Masquerader>, buffer: Bytes, pieces: seq<Bytes>, piece: Bytes)
    ensures var before := DrainPieces(masqueraders, buffer, pieces);
            var last := Drain(masqueraders, before.buffer + piece);
            DrainPieces(masqueraders, buffer, pieces + [piece]) == ChunkSession(last.buffer, before.chunks + last.chunks)
    decreases |pieces|
  {
    hide Drain;
    if pieces == [] {
      assert [piece][1..] == [] && [] + [piece] == [piece];
    } else {
      assert (pieces + [piece])[1..] == pieces[1..] + [piece];
      DrainPiecesSnoc(masqueraders, Drain(masqueraders, buffer + pieces[0]).buffer, pieces[1..], piece);
    }
  }

  lemma {:induction false} DrainPiecesReads(masqueraders: seq<Masquerader>, buffer: Bytes, pieces: seq<Bytes>)
    requires Read(Idle, buffer).frames == [] && Read(Idle, buffer).final.Held() == buffer
    requires AllUnderstood(masqueraders, Read(Idle, buffer + Flatten(pieces)).frames)
    ensures var r := Read(Idle, buffer + Flatten(pieces));
            DrainPieces(masqueraders, buffer, pieces)
            == ChunkSession(r.final.Held(), UnmaskEach(masqueraders, r.frames))
    decreases |pieces|
  {
    hide Read, Understood, Drain;
    if pieces == [] {
      assert buffer + Flatten(pieces) == buffer;
    } else {
      hide UnmaskEach;
      var now, later := buffer + pieces[0], Flatten(pieces[1..]);
      var r := Read(Idle, now);
      assert buffer + Flatten(pieces) == now + later;
      TrimmingIsInvisible(now, later);
      HeldReadsBack(now);
      var rest := Read(Idle, r.final.Held() + later).frames;
      var whole := Read(Idle, now + later).frames;
      assert whole == r.frames + rest;
      assert forall i :: 0 <= i < |r.frames| ==> r.frames[i] == whole[i];
      assert forall i :: 0 <= i < |rest| ==> rest[i] == whole[|r.frames| + i];
      DrainAll(masqueraders, now);
      DrainPiecesReads(masqueraders, r.final.Held(), pieces[1..]);
      UnmaskEachConcat(masqueraders, r.frames, rest);
    }
  }

  /**
   * End to end as the reader drives it: a stream of masked payloads with brace-free garbage around
   * them, cut anywhere and drained after each piece, delivers exactly the payloads, in order, once
   * each, and leaves nothing in the framer.
   */
  lemma {:induction false} DrainedDelivery(payloads: seq<Bytes>, gaps: seq<Bytes>, pieces: seq<Bytes>)
    requires |gaps| == |payloads| + 1 && BraceFree(gaps)
    requires Flatten(pieces) == Weave(gaps, MaskEach(payloads))
    ensures DrainPieces([JsonMasquerader], [], pieces) == ChunkSession([], Chunks(payloads))
  {
    hide Weave, Map, Mask, Flatten, UnmaskEach, FirstUnmasked, DrainPieces;
    ReadMasked(payloads, gaps);
    UnmaskMaskEach(payloads);
    var frames := MaskEach(payloads);
    forall i | 0 <= i < |frames| ensures Understood([JsonMasquerader], frames[i]) {
      MapAt(Mask, payloads, i);
      UnderstandsMask(payloads[i]);
    }
    assert [] + Flatten(pieces) == Flatten(pieces);
    DrainPiecesReads([JsonMasquerader], [], pieces);
  }

  /** "{}" */
  const EMPTY_OBJECT: Bytes := [OPEN_BRACE, CLOSE_BRACE]

  lemma {:induction false} TakeEmptyObject(rest: Bytes)
    ensures Take(EMPTY_OBJECT + rest) == Taken(Some(EMPTY_OBJECT), rest)
  {
    var s := EMPTY_OBJECT + rest;
    var q := Open([OPEN_BRACE], Lex(1, false, false, false));
    assert [OPEN_BRACE] + [CLOSE_BRACE] == EMPTY_OBJECT;
    assert s[1..][0] == CLOSE_BRACE && s[1..][1..] == rest;
    assert FirstFrame(q, s[1..]) == Taken(Some(EMPTY_OBJECT), rest);
  }

  lemma {:induction false} EmptyObjectIsNotUnderstood()
    ensures FirstUnmasked([JsonMasquerader], EMPTY_OBJECT) == None
  {
    assert EMPTY_OBJECT[1..] == [CLOSE_BRACE] && [CLOSE_BRACE][1..] == [];
    assert SkipSpace(EMPTY_OBJECT) == EMPTY_OBJECT && SkipSpace([CLOSE_BRACE]) == [CLOSE_BRACE];
    assert StructureFromString(EMPTY_OBJECT) == Some(Fields(None, None));
    assert [JsonMasquerader][1..] == [];
  }

  /** The smallest such stall: after an empty object, a good frame stays in the buffer undelivered. */
  lemma {:induction false} DrainStallsBehindBadFrame(payload: Bytes)
    ensures Drain([JsonMasquerader], EMPTY_OBJECT + Mask(payload)) == ChunkSession(Mask(payload), [])
  {
    TakeEmptyObject(Mask(payload));
    EmptyObjectIsNotUnderstood();
  }
}
