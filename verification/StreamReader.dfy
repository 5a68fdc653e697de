/** The numbering of inbound chunks in node/src/stream_reader.rs. */
module StreamReading {
  import opened Basics
  import opened JsonMasquerading
  import opened SequenceBuffering
  import opened OrderedWriting

  /** "CONNECT" */
  const CONNECT: Bytes := [67, 79, 78, 78, 69, 67, 84]
  const SPACE: Byte := 32
  const BUFFER_SIZE := 0x10_000

  function UpToSpace(s: Bytes): Bytes {
    if s == [] || s[0] == SPACE then [] else [s[0]] + UpToSpace(s[1..])
  }

  /** Looks at the bytes before the first space among the first eight. */
  predicate IsConnect(data: Bytes) {
    UpToSpace(if |data| > 8 then data[..8] else data) == CONNECT
  }

  /** A read overwrites the front of the buffer; what earlier reads of the same poll left behind it stays. */
  function Overlay(buffer: Bytes, data: Bytes): Bytes
    requires |data| <= |buffer|
  {
    data + buffer[|data|..]
  }

  /** One answer of `poll_read`. */
  datatype ReadAnswer =
    | NoData
    | Data(data: Bytes)
    | EndOfStream
    | ReadRetryable
    | ReadDead

  predicate Fits(answer: ReadAnswer) {
    answer.Data? ==> 0 < |answer.data| <= BUFFER_SIZE
  }

  /**
   * How a discriminator behaves, whatever its framer: the chunks it yields, before it has none,
   * when the last of these pieces has been added to it. It was drained after each of the others.
   */
  type Behaviour = seq<Bytes> -> seq<UnmaskedChunk>

  /** Any discriminator at all. */
  class AnyDiscriminator {
    const behaviour: Behaviour
    var added: seq<Bytes>
    var ready: seq<UnmaskedChunk>

    constructor (behaviour: Behaviour)
      ensures this.behaviour == behaviour && added == [] && ready == []
    {
      this.behaviour, added, ready := behaviour, [], [];
    }

    method AddData(data: Bytes)
      modifies this
      ensures added == old(added) + [data] && ready == old(ready) + behaviour(added)
    {
      added := added + [data];
      ready := ready + behaviour(added);
    }

    method TakeChunk() returns (chunk: Option<UnmaskedChunk>)
      modifies this`ready
      ensures if old(ready) == [] then chunk == None && ready == []
              else chunk == Some(old(ready)[0]) && ready == old(ready)[1..]
    {
      if ready == [] {
        chunk := None;
      } else {
        chunk, ready := Some(ready[0]), ready[1..];
      }
    }
  }

  datatype Inbound = Inbound(number: Option<nat>, data: Bytes)

  datatype Removal = Clandestine | NonClandestine(number: nat)

  /** Where a message came from: a read taken for a CONNECT or not, and the unmasked chunk. */
  datatype Origin = Origin(connect: bool, chunk: UnmaskedChunk) {
    predicate Ordinary() {
      chunk.sequenced && !connect
    }
  }

  /**
   * The reader: its sequencer, what it added to each discriminator, what it sent to the dispatcher
   * and why, and its final removal message.
   */
  datatype Reader = Reader(clandestine: bool, next: nat, added: seq<seq<Bytes>>, messages: seq<Inbound>,
                           origins: seq<Origin>, removal: Option<Removal>)

  function FreshReader(clandestine: bool, discriminators: nat): Reader {
    Reader(clandestine, 0, seq(discriminators, _ => []), [], [], None)
  }

  function Forward(r: Reader, connect: bool, chunk: UnmaskedChunk): Reader {
    var ordinary := chunk.sequenced && !connect;
    var number := if ordinary then Some(r.next) else if connect then Some(0) else None;
    r.(next := if ordinary then r.next + 1 else r.next,
       messages := r.messages + [Inbound(number, chunk.chunk)],
       origins := r.origins + [Origin(connect, chunk)])
  }

  function ForwardAll(r: Reader, connect: bool, chunks: seq<UnmaskedChunk>): (r': Reader)
    ensures r'.added == r.added
    decreases |chunks|
  {
    if chunks == [] then r else ForwardAll(Forward(r, connect, chunks[0]), connect, chunks[1..])
  }

  /** Reads taken for a CONNECT go to the second discriminator, if there is one; all others to the first. */
  function Chosen(discriminators: nat, connect: bool): nat {
    if discriminators > 1 && connect then 1 else 0
  }

  /** `data` has been read into the front of `buffer`. */
  function Wrangle(behaviours: seq<Behaviour>, r: Reader, buffer: Bytes, data: Bytes): (r': Reader)
    requires 0 < |behaviours| == |r.added|
    ensures |r'.added| == |r.added|
  {
    var connect := IsConnect(buffer);
    var c := Chosen(|r.added|, connect);
    var pieces := r.added[c] + [data];
    ForwardAll(r.(added := r.added[c := pieces]), connect, behaviours[c](pieces))
  }

  function Remove(r: Reader): Reader {
    if r.clandestine then r.(removal := Some(Clandestine))
    else r.(removal := Some(NonClandestine(r.next)), next := r.next + 1)
  }

  ghost predicate FitsAll(answers: seq<ReadAnswer>) {
    forall i :: 0 <= i < |answers| ==> Fits(answers[i])
  }

  function PollReader(behaviours: seq<Behaviour>, r: Reader, buffer: Bytes, answers: seq<ReadAnswer>)
    : (o: (Reader, PollResult))
    requires |buffer| == BUFFER_SIZE && FitsAll(answers) && 0 < |behaviours| == |r.added|
    ensures |o.0.added| == |r.added|
    decreases |answers|
  {
    if answers == [] then (r, NotReady)
    else
      assert Fits(answers[0]);
      match answers[0]
      case NoData => (r, NotReady)
      case EndOfStream => (Remove(r), Ready)
      case ReadDead => (Remove(r), Error)
      case ReadRetryable => PollReader(behaviours, r, buffer, answers[1..])
      case Data(data) =>
        var buffer' := Overlay(buffer, data);
        PollReader(behaviours, Wrangle(behaviours, r, buffer', data), buffer', answers[1..])
  }

  class StreamReader {
    const discriminators: seq<AnyDiscriminator>
    const isClandestine: bool
    var sequencer: nat
    var messages: seq<Inbound>
    var removal: Option<Removal>
    ghost var origins: seq<Origin>

    /** The discriminators are different objects, and each has been drained. */
    ghost predicate Valid()
      reads this, discriminators
    {
      && discriminators != []
      && (forall i, j :: 0 <= i < j < |discriminators| ==> discriminators[i] != discriminators[j])
      && (forall i :: 0 <= i < |discriminators| ==> discriminators[i].ready == [])
    }

    ghost function Behaviours(): seq<Behaviour> {
      seq(|discriminators|, i requires 0 <= i < |discriminators| => discriminators[i].behaviour)
    }

    ghost function State(): (r: Reader)
      reads this, discriminators
      ensures |r.added| == |discriminators|
    {
      Reader(isClandestine, sequencer,
             seq(|discriminators|, i requires 0 <= i < |discriminators| reads discriminators => discriminators[i].added),
             messages, origins, removal)
    }

    /** Panics in the source when there is no discriminator. */
    constructor (discriminators: seq<AnyDiscriminator>, isClandestine: bool)
      requires discriminators != []
      requires forall i, j :: 0 <= i < j < |discriminators| ==> discriminators[i] != discriminators[j]
      requires forall i :: 0 <= i < |discriminators| ==> discriminators[i].ready == [] && discriminators[i].added == []
      ensures Valid() && this.discriminators == discriminators
      ensures State() == FreshReader(isClandestine, |discriminators|)
    {
      this.discriminators, this.isClandestine := discriminators, isClandestine;
      sequencer, messages, origins, removal := 0, [], [], None;
    }

    method NextSequenceNumber() returns (n: nat)
      modifies this`sequencer
      ensures n == old(sequencer) && sequencer == n + 1
    {
      n := sequencer;
      sequencer := sequencer + 1;
    }

    method WrangleDiscriminators(buffer: Bytes, length: nat)
      requires Valid() && length <= |buffer|
      modifies this, discriminators
      ensures Valid() && State() == Wrangle(Behaviours(), old(State()), buffer, buffer[..length])
    {
      var isConnect := IsConnect(buffer);
      var c := Chosen(|discriminators|, isConnect);
      ghost var r := State();
      discriminators[c].AddData(buffer[..length]);
      assert r.added[c] == old(discriminators[c].added);
      assert discriminators[c].ready == Behaviours()[c](discriminators[c].added);
      assert State() == r.(added := r.added[c := r.added[c] + [buffer[..length]]]);
      SendChunks(discriminators[c], isConnect);
    }

    /** Takes chunks from the chosen discriminator until it has none. */
    method SendChunks(chosen: AnyDiscriminator, isConnect: bool)
      modifies this, chosen`ready
      ensures chosen.ready == []
      ensures State() == ForwardAll(old(State()), isConnect, old(chosen.ready))
    {
      while true
        invariant ForwardAll(State(), isConnect, chosen.ready) == ForwardAll(old(State()), isConnect, old(chosen.ready))
        decreases |chosen.ready|
      {
        ghost var before := State();
        var chunk := chosen.TakeChunk();
        assert State().added == before.added;
        if chunk == None {
          break;
        }
        Send(isConnect, chunk.value);
      }
    }

    /** Numbers a chunk and sends it to the dispatcher. */
    method Send(isConnect: bool, chunk: UnmaskedChunk)
      modifies this
      ensures State() == Forward(old(State()), isConnect, chunk)
    {
      var number: Option<nat>;
      if chunk.sequenced && !isConnect {
        var n := NextSequenceNumber();
        number := Some(n);
      } else if isConnect {
        number := Some(0);
      } else {
        number := None;
      }
      messages := messages + [Inbound(number, chunk.chunk)];
      origins := origins + [Origin(isConnect, chunk)];
    }

    method Shutdown()
      modifies this
      ensures State() == Remove(old(State()))
    {
      if isClandestine {
        removal := Some(Clandestine);
      } else {
        var n := NextSequenceNumber();
        removal := Some(NonClandestine(n));
      }
    }

    method Poll(answers: seq<ReadAnswer>) returns (result: PollResult)
      requires Valid() && FitsAll(answers)
      modifies this, discriminators
      ensures Valid()
      ensures (State(), result) == PollReader(Behaviours(), old(State()), seq(BUFFER_SIZE, _ => 0), answers)
    {
      var buffer: Bytes := seq(BUFFER_SIZE, _ => 0);
      ghost var blank := buffer;
      for i := 0 to |answers|
        invariant Valid() && |buffer| == BUFFER_SIZE
        invariant PollReader(Behaviours(), State(), buffer, answers[i..])
                  == PollReader(Behaviours(), old(State()), blank, answers)
      {
        assert answers[i..][1..] == answers[i + 1..];
        match answers[i] {
          case NoData =>
            return NotReady;
          case EndOfStream =>
            Shutdown();
            return Ready;
          case ReadDead =>
            Shutdown();
            return Error;
          case ReadRetryable =>
          case Data(data) =>
            buffer := Overlay(buffer, data);
            assert buffer[..|data|] == data;
            WrangleDiscriminators(buffer, |data|);
        }
      }
      result := NotReady;
    }
  }

  // Numbering

  /** How many of the chunks take a number from the sequencer. */
  function Count(origins: seq<Origin>): nat {
    if origins == [] then 0
    else Count(origins[..|origins| - 1]) + (if origins[|origins| - 1].Ordinary() then 1 else 0)
  }

  /** The number a chunk should carry: how many numbered chunks came before it. */
  ghost predicate WellNumbered(messages: seq<Inbound>, origins: seq<Origin>) {
    && |messages| == |origins|
    && forall i :: 0 <= i < |origins| ==>
         messages[i] == Inbound(if origins[i].Ordinary() then Some(Count(origins[..i]))
                                else if origins[i].connect then Some(0) else None,
                                origins[i].chunk.chunk)
  }

  ghost predicate Numbering(r: Reader) {
    && WellNumbered(r.messages, r.origins)
    && match r.removal
       case None => r.next == Count(r.origins)
       case Some(removal) => removal == if r.clandestine then Clandestine else NonClandestine(Count(r.origins))
  }

  lemma {:induction false} ForwardKeepsNumbering(r: Reader, connect: bool, chunk: UnmaskedChunk)
    requires Numbering(r) && r.removal == None
    ensures Numbering(Forward(r, connect, chunk))
  {
    var origins := r.origins + [Origin(connect, chunk)];
    assert origins[..|r.origins|] == r.origins;
    assert forall i :: 0 <= i < |r.origins| ==> origins[..i] == r.origins[..i];
  }

  lemma {:induction false} ForwardAllKeepsNumbering(r: Reader, connect: bool, chunks: seq<UnmaskedChunk>)
    requires Numbering(r) && r.removal == None
    ensures var r' := ForwardAll(r, connect, chunks);
            Numbering(r') && r'.removal == None && r'.clandestine == r.clandestine
    decreases |chunks|
  {
    hide Numbering;
    if chunks == [] {
    } else {
      ForwardKeepsNumbering(r, connect, chunks[0]);
      ForwardAllKeepsNumbering(Forward(r, connect, chunks[0]), connect, chunks[1..]);
    }
  }

  lemma {:induction false} WrangleKeepsNumbering(behaviours: seq<Behaviour>, r: Reader, buffer: Bytes, data: Bytes)
    requires 0 < |behaviours| == |r.added| && Numbering(r) && r.removal == None
    ensures var r' := Wrangle(behaviours, r, buffer, data);
            Numbering(r') && r'.removal == None && r'.clandestine == r.clandestine
  {
    var c := Chosen(|r.added|, IsConnect(buffer));
    var pieces := r.added[c] + [data];
    ForwardAllKeepsNumbering(r.(added := r.added[c := pieces]), IsConnect(buffer), behaviours[c](pieces));
  }

  lemma {:induction false} PollKeepsNumbering(behaviours: seq<Behaviour>, r: Reader, buffer: Bytes,
                                              answers: seq<ReadAnswer>)
    requires |buffer| == BUFFER_SIZE && FitsAll(answers) && 0 < |behaviours| == |r.added|
    requires Numbering(r) && r.removal == None
    ensures var (r', result) := PollReader(behaviours, r, buffer, answers);
            Numbering(r') && (result == NotReady <==> r'.removal == None) && r'.clandestine == r.clandestine
    decreases |answers|
  {
    hide Wrangle;
    if answers == [] {
    } else {
      match answers[0]
      case ReadRetryable => PollKeepsNumbering(behaviours, r, buffer, answers[1..]);
      case Data(data) =>
        var buffer' := Overlay(buffer, data);
        WrangleKeepsNumbering(behaviours, r, buffer', data);
        PollKeepsNumbering(behaviours, Wrangle(behaviours, r, buffer', data), buffer', answers[1..]);
      case _ =>
    }
  }

  ghost predicate AllFit(polls: seq<seq<ReadAnswer>>) {
    forall i :: 0 <= i < |polls| ==> FitsAll(polls[i])
  }

  /** A reader polled again and again until it is done. */
  function RunReader(behaviours: seq<Behaviour>, clandestine: bool, polls: seq<seq<ReadAnswer>>)
    : (o: (Reader, PollResult))
    requires behaviours != [] && AllFit(polls)
    ensures |o.0.added| == |behaviours|
  {
    if polls == [] then (FreshReader(clandestine, |behaviours|), NotReady)
    else
      var (r, result) := RunReader(behaviours, clandestine, polls[..|polls| - 1]);
      if result != NotReady then (r, result)
      else PollReader(behaviours, r, seq(BUFFER_SIZE, _ => 0), polls[|polls| - 1])
  }

  /**
   * Over every run, with any discriminators, numbered chunks get 0, 1, 2, ... with no gap and no
   * repeat, chunks of reads taken for a CONNECT get 0 without consuming a number, and the removal
   * message of a non-clandestine reader carries the next number.
   */
  lemma {:induction false} RunIsWellNumbered(behaviours: seq<Behaviour>, clandestine: bool,
                                             polls: seq<seq<ReadAnswer>>)
    requires behaviours != [] && AllFit(polls)
    ensures var (r, result) := RunReader(behaviours, clandestine, polls);
            Numbering(r) && (result == NotReady <==> r.removal == None) && r.clandestine == clandestine
  {
    hide PollReader, Numbering;
    if polls == [] {
      FreshIsNumbered(clandestine, |behaviours|);
    } else {
      var init := polls[..|polls| - 1];
      RunIsWellNumbered(behaviours, clandestine, init);
      var (r, result) := RunReader(behaviours, clandestine, init);
      if result == NotReady {
        PollKeepsNumbering(behaviours, r, seq(BUFFER_SIZE, _ => 0), polls[|polls| - 1]);
      }
    }
  }

  lemma {:induction false} FreshIsNumbered(clandestine: bool, discriminators: nat)
    ensures Numbering(FreshReader(clandestine, discriminators))
  {
  }

  /** The data of the numbered chunks, in the order they were read. */
  function OrdinaryData(origins: seq<Origin>): seq<Bytes> {
    if origins == [] then []
    else OrdinaryData(origins[..|origins| - 1])
         + (if origins[|origins| - 1].Ordinary() then [origins[|origins| - 1].chunk.chunk] else [])
  }

  /** The numbered messages as packets for a sorted writer. */
  function Packets(messages: seq<Inbound>, origins: seq<Origin>): seq<SequencedPacket>
    requires |messages| == |origins|
  {
    if origins == [] then []
    else
      var n := |origins| - 1;
      Packets(messages[..n], origins[..n])
      + (if origins[n].Ordinary() && messages[n].number.Some?
         then [SequencedPacket(messages[n].data, messages[n].number.value, false)] else [])
  }

  lemma {:induction false} PacketsAreNumbered(messages: seq<Inbound>, origins: seq<Origin>)
    requires WellNumbered(messages, origins)
    ensures Packets(messages, origins) == Numbered(OrdinaryData(origins))
    ensures |OrdinaryData(origins)| == Count(origins)
  {
    if origins == [] {
    } else {
      var n := |origins| - 1;
      var o := origins[..n];
      assert forall i :: 0 <= i < n ==> o[..i] == origins[..i];
      PacketsAreNumbered(messages[..n], o);
    }
  }

  /** The packet that reports the removal of a non-clandestine reader to the other end. */
  function ClosingPacket(removal: Option<Removal>): seq<SequencedPacket> {
    if removal.Some? && removal.value.NonClandestine? then [SequencedPacket([], removal.value.number, true)] else []
  }

  /**
   * From reader to writer: the numbered chunks of any run, and the closing packet if it has ended,
   * permuted and delayed arbitrarily on their way to a sorted writer that completes, come out in the
   * order they were read; and the writer shuts its socket down exactly when the reader has been removed.
   */
  lemma {:induction false} ReaderToWriter(behaviours: seq<Behaviour>, polls: seq<seq<ReadAnswer>>, scripts: seq<Script>)
    requires behaviours != [] && AllFit(polls)
    requires var r := RunReader(behaviours, false, polls).0;
             && |r.messages| == |r.origins|
             && multiset(Run(scripts).writer.received)
                == multiset(Packets(r.messages, r.origins) + ClosingPacket(r.removal))
    requires Run(scripts).result == Ready
    ensures var (r, result) := RunReader(behaviours, false, polls); var w := Run(scripts).writer;
            && w.written == Flatten(OrdinaryData(r.origins))
            && (w.shuttingDown <==> result != NotReady)
  {
    hide Run, RunReader, Packets, OrdinaryData;
    RunIsWellNumbered(behaviours, false, polls);
    var r := RunReader(behaviours, false, polls).0;
    PacketsAreNumbered(r.messages, r.origins);
    var chunks := OrdinaryData(r.origins);
    if r.removal == None {
      assert Numbered(chunks) + [] == Numbered(chunks);
      OrderedDelivery(chunks, scripts);
    } else {
      ClosedDelivery(chunks, scripts);
    }
  }

  // Which reads are taken for a CONNECT

  lemma {:induction false} UpToSpaceIs(s: Bytes, m: Bytes)
    requires SPACE !in m
    ensures UpToSpace(s) == m <==> m <= s && (|s| > |m| ==> s[|m|] == SPACE)
  {
    if s != [] && m != [] && s[0] == m[0] {
      UpToSpaceIs(s[1..], m[1..]);
    } else if s != [] && m == [] {
      assert UpToSpace(s) == [] <==> s[0] == SPACE;
    }
  }

  lemma {:induction false} IsConnectMeans(data: Bytes)
    ensures IsConnect(data) <==> CONNECT <= data && (|data| > 7 ==> data[7] == SPACE)
  {
    var front := if |data| > 8 then data[..8] else data;
    UpToSpaceIs(front, CONNECT);
    assert CONNECT <= front <==> CONNECT <= data;
  }

  /**
   * The source tests its whole buffer, not the bytes just read, so a short read can be judged by
   * leftovers. A read is judged by its own bytes whatever the leftovers are, exactly when it is
   * not an initial part of the word CONNECT.
   */
  lemma {:induction false} ConnectJudgedByOwnBytes(data: Bytes)
    requires 0 < |data| <= BUFFER_SIZE
    ensures (forall buffer: Bytes :: |buffer| == BUFFER_SIZE ==> IsConnect(Overlay(buffer, data)) == IsConnect(data))
            <==> !(data <= CONNECT)
  {
    IsConnectMeans(data);
    if data <= CONNECT {
      var last := if data == CONNECT then 0 else SPACE;
      var buffer: Bytes := seq(BUFFER_SIZE, i => if 0 <= i < 7 then CONNECT[i] else last);
      IsConnectMeans(Overlay(buffer, data));
      assert Overlay(buffer, data) == buffer;
      assert IsConnect(buffer) != IsConnect(data);
    } else {
      forall buffer: Bytes | |buffer| == BUFFER_SIZE
        ensures IsConnect(Overlay(buffer, data)) == IsConnect(data)
      {
        IsConnectMeans(Overlay(buffer, data));
        ShortNonPrefix(buffer, data);
      }
    }
  }

  lemma {:induction false} ShortNonPrefix(buffer: Bytes, data: Bytes)
    requires |data| <= |buffer| == BUFFER_SIZE && !(data <= CONNECT)
    ensures CONNECT <= Overlay(buffer, data) ==> CONNECT <= data && |data| > 7 && Overlay(buffer, data)[7] == data[7]
    ensures CONNECT <= data ==> CONNECT <= Overlay(buffer, data) && |data| > 7 && Overlay(buffer, data)[7] == data[7]
  {
    var o := Overlay(buffer, data);
    assert forall i :: 0 <= i < |data| ==> o[i] == data[i];
    assert |data| == 7 ==> !(CONNECT <= data);
    assert |data| <= 7 && CONNECT <= o ==> data <= CONNECT;
  }

  /** "C" */
  const LETTER_C: Bytes := [67]

  /**
   * The smallest such misjudgement: one poll reads a CONNECT request and then a single letter C. The
   * letter is no CONNECT, yet the chunk it completes is sent as one, and takes no number.
   */
  lemma {:induction false} LeftoversMakeAConnect(behaviour: Behaviour, chunk: UnmaskedChunk)
    requires behaviour([CONNECT_REQUEST]) == [] && behaviour([CONNECT_REQUEST, LETTER_C]) == [chunk]
    requires chunk.sequenced
    ensures !IsConnect(LETTER_C)
    ensures var answers := [Data(CONNECT_REQUEST), Data(LETTER_C)];
            var (r, result) := PollReader([behaviour], FreshReader(false, 1), seq(BUFFER_SIZE, _ => 0), answers);
            r.messages == [Inbound(Some(0), chunk.chunk)] && r.next == 0
  {
    var blank: Bytes := seq(BUFFER_SIZE, _ => 0);
    var b1 := Overlay(blank, CONNECT_REQUEST);
    var b2 := Overlay(b1, LETTER_C);
    IsConnectMeans(LETTER_C);
    IsConnectMeans(b1);
    IsConnectMeans(b2);
    assert b2[..8] == CONNECT_REQUEST;
    hide IsConnect, Overlay;
    var r0 := FreshReader(false, 1);
    var r1 := Wrangle([behaviour], r0, b1, CONNECT_REQUEST);
    assert [] + [CONNECT_REQUEST] == [CONNECT_REQUEST];
    assert r1 == r0.(added := [[CONNECT_REQUEST]]);
    assert [CONNECT_REQUEST] + [LETTER_C] == [CONNECT_REQUEST, LETTER_C];
    var r2 := Wrangle([behaviour], r1, b2, LETTER_C);
    var r1' := r1.(added := [[CONNECT_REQUEST, LETTER_C]]);
    assert [chunk][1..] == [];
    assert ForwardAll(r1', true, [chunk]) == ForwardAll(Forward(r1', true, chunk), true, []);
    assert r1.added[0 := [CONNECT_REQUEST, LETTER_C]] == r1'.added;
    assert r2 == Forward(r1.(added := [[CONNECT_REQUEST, LETTER_C]]), true, chunk);
    var answers := [Data(CONNECT_REQUEST), Data(LETTER_C)];
    assert answers[1..] == [Data(LETTER_C)] && [Data(LETTER_C)][1..] == [];
    assert PollReader([behaviour], r2, b2, []) == (r2, NotReady);
    assert PollReader([behaviour], r1, b1, answers[1..]) == (r2, NotReady);
  }

  // Where the bytes of a run go

  /** "CONNECT " */
  const CONNECT_REQUEST: Bytes := CONNECT + [SPACE]

  /** A read with data: its bytes, and whether the buffer then began with "CONNECT ". */
  datatype Piece = Piece(data: Bytes, connect: bool)

  /** The reads with data that one poll gets to. */
  function Handled(buffer: Bytes, answers: seq<ReadAnswer>): seq<Piece>
    requires |buffer| == BUFFER_SIZE && FitsAll(answers)
    decreases |answers|
  {
    if answers == [] then []
    else
      assert Fits(answers[0]);
      match answers[0]
      case Data(data) =>
        var buffer' := Overlay(buffer, data);
        [Piece(data, CONNECT_REQUEST <= buffer')] + Handled(buffer', answers[1..])
      case ReadRetryable => Handled(buffer, answers[1..])
      case _ => []
  }

  /** The first answer that is neither data nor an error to be retried, if there is one. */
  function Stop(answers: seq<ReadAnswer>): Option<ReadAnswer> {
    if answers == [] then None
    else if answers[0].Data? || answers[0].ReadRetryable? then Stop(answers[1..])
    else Some(answers[0])
  }

  /** Has one of the polls come to the end of the stream, or to its death? */
  predicate Ended(polls: seq<seq<ReadAnswer>>) {
    exists i :: 0 <= i < |polls| && Stop(polls[i]) in {Some(EndOfStream), Some(ReadDead)}
  }

  /** The reads with data that a run gets to. */
  ghost function HandledByRun(polls: seq<seq<ReadAnswer>>): seq<Piece>
    requires AllFit(polls)
  {
    if polls == [] then []
    else
      var init := polls[..|polls| - 1];
      HandledByRun(init) + (if Ended(init) then [] else Handled(seq(BUFFER_SIZE, _ => 0), polls[|polls| - 1]))
  }

  /** Of two or more discriminators the second gets the CONNECT requests. */
  predicate GoesToSecond(discriminators: nat, piece: Piece) {
    discriminators >= 2 && piece.connect
  }

  /** The pieces that go to the second discriminator, or those that do not. */
  function Sorted(discriminators: nat, pieces: seq<Piece>, second: bool): seq<Bytes> {
    if pieces == [] then []
    else
      var n := |pieces| - 1;
      Sorted(discriminators, pieces[..n], second)
      + (if GoesToSecond(discriminators, pieces[n]) == second then [pieces[n].data] else [])
  }

  function Origins(connect: bool, chunks: seq<UnmaskedChunk>): seq<Origin> {
    if chunks == [] then [] else [Origin(connect, chunks[0])] + Origins(connect, chunks[1..])
  }

  /** All that the discriminators yield, in the order of the reads. */
  function Yielded(behaviours: seq<Behaviour>, pieces: seq<Piece>): seq<Origin>
    requires behaviours != []
  {
    if pieces == [] then []
    else
      var n := |pieces| - 1;
      var second := GoesToSecond(|behaviours|, pieces[n]);
      Yielded(behaviours, pieces[..n])
      + Origins(pieces[n].connect, behaviours[if second then 1 else 0](Sorted(|behaviours|, pieces, second)))
  }

  /** Every piece has gone where it should, and all that came of it has been sent. */
  ghost predicate Routed(behaviours: seq<Behaviour>, r: Reader, pieces: seq<Piece>) {
    var n := |behaviours|;
    && 0 < n == |r.added|
    && r.added[0] == Sorted(n, pieces, false)
    && (n >= 2 ==> r.added[1] == Sorted(n, pieces, true))
    && (forall i :: 2 <= i < n ==> r.added[i] == [])
    && r.origins == Yielded(behaviours, pieces)
  }

  lemma {:induction false} ForwardAllOrigins(r: Reader, connect: bool, chunks: seq<UnmaskedChunk>)
    ensures ForwardAll(r, connect, chunks).origins == r.origins + Origins(connect, chunks)
    decreases |chunks|
  {
    if chunks == [] {
      assert r.origins + [] == r.origins;
    } else {
      ForwardAllOrigins(Forward(r, connect, chunks[0]), connect, chunks[1..]);
      assert r.origins + [Origin(connect, chunks[0])] + Origins(connect, chunks[1..])
             == r.origins + Origins(connect, chunks);
    }
  }

  lemma {:induction false} BufferConnects(buffer: Bytes)
    requires |buffer| == BUFFER_SIZE
    ensures IsConnect(buffer) <==> CONNECT_REQUEST <= buffer
  {
    IsConnectMeans(buffer);
    hide IsConnect;
    assert CONNECT <= buffer && buffer[7] == SPACE <==> CONNECT_REQUEST <= buffer;
  }

  lemma {:induction false} SortedSnoc(discriminators: nat, pieces: seq<Piece>, piece: Piece, second: bool)
    ensures Sorted(discriminators, pieces + [piece], second)
            == Sorted(discriminators, pieces, second)
               + (if GoesToSecond(discriminators, piece) == second then [piece.data] else [])
  {
    assert (pieces + [piece])[..|pieces|] == pieces;
  }

  lemma {:induction false} WrangleRoutes(behaviours: seq<Behaviour>, r: Reader, pieces: seq<Piece>, buffer: Bytes,
                                         data: Bytes)
    requires |buffer| == BUFFER_SIZE && Routed(behaviours, r, pieces)
    ensures Routed(behaviours, Wrangle(behaviours, r, buffer, data), pieces + [Piece(data, CONNECT_REQUEST <= buffer)])
  {
    BufferConnects(buffer);
    var piece := Piece(data, CONNECT_REQUEST <= buffer);
    var all := pieces + [piece];
    var n := |behaviours|;
    var second := GoesToSecond(n, piece);
    var c := if second then 1 else 0;
    SortedSnoc(n, pieces, piece, false);
    SortedSnoc(n, pieces, piece, true);
    assert all[..|pieces|] == pieces;
    hide IsConnect, ForwardAll, Sorted;
    var r' := r.(added := r.added[c := r.added[c] + [data]]);
    ForwardAllOrigins(r', piece.connect, behaviours[c](r.added[c] + [data]));
    assert forall s: seq<Bytes> :: s + [] == s;
  }

  lemma {:induction false} PollRoutes(behaviours: seq<Behaviour>, r: Reader, pieces: seq<Piece>, buffer: Bytes,
                                      answers: seq<ReadAnswer>)
    requires |buffer| == BUFFER_SIZE && FitsAll(answers) && Routed(behaviours, r, pieces)
    ensures var (r', result) := PollReader(behaviours, r, buffer, answers);
            && Routed(behaviours, r', pieces + Handled(buffer, answers))
            && (result == Ready <==> Stop(answers) == Some(EndOfStream))
            && (result == Error <==> Stop(answers) == Some(ReadDead))
    decreases |answers|
  {
    hide Wrangle, Sorted, Yielded;
    if answers == [] {
      assert pieces + [] == pieces;
    } else {
      match answers[0]
      case ReadRetryable => PollRoutes(behaviours, r, pieces, buffer, answers[1..]);
      case Data(data) =>
        var buffer' := Overlay(buffer, data);
        var piece := Piece(data, CONNECT_REQUEST <= buffer');
        WrangleRoutes(behaviours, r, pieces, buffer', data);
        PollRoutes(behaviours, Wrangle(behaviours, r, buffer', data), pieces + [piece], buffer', answers[1..]);
        assert pieces + [piece] + Handled(buffer', answers[1..]) == pieces + Handled(buffer, answers);
      case _ =>
        assert pieces + [] == pieces;
    }
  }

  /**
   * Over every run, with any number of discriminators: of two or more the second has been given the
   * reads at which the buffer began with "CONNECT " and the first all others, further ones nothing;
   * everything they yield has been sent, in the order of the reads; and the run has ended as its
   * first poll to meet the end of the stream, or its death, did.
   */
  lemma {:induction false} RunRoutes(behaviours: seq<Behaviour>, clandestine: bool, polls: seq<seq<ReadAnswer>>)
    requires behaviours != [] && AllFit(polls)
    ensures Routed(behaviours, RunReader(behaviours, clandestine, polls).0, HandledByRun(polls))
    ensures RunReader(behaviours, clandestine, polls).1 == NotReady <==> !Ended(polls)
    ensures polls != [] && !Ended(polls[..|polls| - 1]) ==>
              var result := RunReader(behaviours, clandestine, polls).1;
              && (result == Ready <==> Stop(polls[|polls| - 1]) == Some(EndOfStream))
              && (result == Error <==> Stop(polls[|polls| - 1]) == Some(ReadDead))
  {
    if polls == [] {
    } else {
      hide PollReader, Handled, Routed;
      var init, last := polls[..|polls| - 1], polls[|polls| - 1];
      RunRoutes(behaviours, clandestine, init);
      var (r, result) := RunReader(behaviours, clandestine, init);
      EndedSnoc(polls);
      if result == NotReady {
        PollRoutes(behaviours, r, HandledByRun(init), seq(BUFFER_SIZE, _ => 0), last);
      } else {
        assert HandledByRun(init) + [] == HandledByRun(init);
      }
    }
  }

  lemma {:induction false} EndedSnoc(polls: seq<seq<ReadAnswer>>)
    requires polls != []
    ensures Ended(polls)
            <==> Ended(polls[..|polls| - 1]) || Stop(polls[|polls| - 1]) in {Some(EndOfStream), Some(ReadDead)}
  {
    hide Stop;
    var init := polls[..|polls| - 1];
    assert forall i :: 0 <= i < |init| ==> init[i] == polls[i];
  }
}
