/** The reorder buffer of node/src/sub_lib/sequence_buffer.rs. */
module SequenceBuffering {
  import opened Basics

  /** Sequence numbers are u64 in the source; the model does not run into 2^64 packets. */
  datatype SequencedPacket = SequencedPacket(data: Bytes, number: nat, lastData: bool)

  /** What a buffer means: the next number to hand out, and the packets waiting, by number. */
  datatype View = View(next: nat, pending: map<nat, SequencedPacket>) {

    ghost predicate Valid() {
      forall n :: n in pending ==> n >= next && pending[n].number == n
    }

    /** Numbers already handed out or already waiting are dropped as duplicates. */
    function Push(p: SequencedPacket): View {
      if p.number >= next && p.number !in pending then View(next, pending[p.number := p]) else this
    }

    function Poll(): (Option<SequencedPacket>, View) {
      if next in pending then (Some(pending[next]), View(next + 1, pending - {next})) else (None, this)
    }

    function Repush(p: SequencedPacket): View
      requires next == p.number + 1
    {
      View(p.number, pending[p.number := p])
    }
  }

  /** The contents of the heap, lowest number first. */
  ghost predicate Ascending(heap: seq<SequencedPacket>, low: nat) {
    heap == [] || (low <= heap[0].number && Ascending(heap[1..], heap[0].number + 1))
  }

  ghost function ByNumber(heap: seq<SequencedPacket>): map<nat, SequencedPacket> {
    if heap == [] then map[] else ByNumber(heap[1..])[heap[0].number := heap[0]]
  }

  function Insert(heap: seq<SequencedPacket>, p: SequencedPacket): seq<SequencedPacket> {
    if heap == [] || p.number <= heap[0].number then [p] + heap else [heap[0]] + Insert(heap[1..], p)
  }

  lemma {:induction false} ByNumberAbove(heap: seq<SequencedPacket>, low: nat)
    requires Ascending(heap, low)
    ensures forall n :: n in ByNumber(heap) ==> n >= low && ByNumber(heap)[n].number == n
  {
    if heap == [] {
    } else {
      ByNumberAbove(heap[1..], heap[0].number + 1);
    }
  }

  lemma {:induction false} InsertAdds(heap: seq<SequencedPacket>, low: nat, p: SequencedPacket)
    requires Ascending(heap, low) && low <= p.number && p.number !in ByNumber(heap)
    ensures Ascending(Insert(heap, p), low)
    ensures ByNumber(Insert(heap, p)) == ByNumber(heap)[p.number := p]
    decreases |heap|
  {
    if heap != [] && p.number > heap[0].number {
      InsertAdds(heap[1..], heap[0].number + 1, p);
      assert Insert(heap, p)[1..] == Insert(heap[1..], p);
    } else {
      assert Insert(heap, p)[1..] == heap;
    }
  }

  ghost predicate Distinct(s: seq<nat>) {
    forall i, j :: 0 <= i < j < |s| ==> s[i] != s[j]
  }

  class SequenceBuffer {
    /** A BinaryHeap in the source: only its lowest-numbered packet is ever looked at. */
    var buffer: seq<SequencedPacket>
    var nextExpected: nat
    var seen: seq<nat>

    ghost predicate Valid()
      reads this
    {
      && Ascending(buffer, nextExpected)
      && Distinct(seen)
      && forall n :: n in seen <==> n in ByNumber(buffer)
    }

    ghost function Contents(): (v: View)
      requires Valid()
      reads this
      ensures v.Valid()
    {
      ByNumberAbove(buffer, nextExpected);
      View(nextExpected, ByNumber(buffer))
    }

    constructor ()
      ensures Valid() && Contents() == View(0, map[])
    {
      buffer, nextExpected, seen := [], 0, [];
    }

    method Push(p: SequencedPacket)
      requires Valid()
      modifies this
      ensures Valid() && Contents() == old(Contents()).Push(p)
    {
      if p.number >= nextExpected && p.number !in seen {
        InsertAdds(buffer, nextExpected, p);
        seen := seen + [p.number];
        buffer := Insert(buffer, p);
      }
    }

    method Poll() returns (packet: Option<SequencedPacket>)
      requires Valid()
      modifies this
      ensures Valid() && (packet, Contents()) == old(Contents()).Poll()
    {
      ByNumberAbove(buffer, nextExpected);
      if buffer == [] {
        return None;
      }
      ByNumberAbove(buffer[1..], buffer[0].number + 1);
      if buffer[0].number == nextExpected {
        packet := Some(buffer[0]);
        ghost var rest := ByNumber(buffer[1..]);
        assert ByNumber(buffer) - {nextExpected} == rest;
        seen := Without(seen, nextExpected);
        buffer, nextExpected := buffer[1..], nextExpected + 1;
      } else {
        packet := None;
      }
    }

    /** Panics in the source unless the packet is the one last polled. */
    method Repush(p: SequencedPacket)
      requires Valid() && nextExpected == p.number + 1
      modifies this
      ensures Valid() && Contents() == old(Contents()).Repush(p)
    {
      ByNumberAbove(buffer, nextExpected);
      Lower(buffer, nextExpected, p.number);
      InsertAdds(buffer, p.number, p);
      nextExpected := p.number;
      seen := seen + [p.number];
      buffer := Insert(buffer, p);
    }
  }

  lemma Lower(heap: seq<SequencedPacket>, low: nat, lower: nat)
    requires Ascending(heap, low) && lower <= low
    ensures Ascending(heap, lower)
  {
  }

  /** Removes the first occurrence, as `index_of` and `remove` do. */
  method Without(s: seq<nat>, n: nat) returns (r: seq<nat>)
    requires Distinct(s)
    ensures Distinct(r)
    ensures forall m :: m in r <==> m in s && m != n
  {
    for i := 0 to |s|
      invariant n !in s[..i]
    {
      if s[i] == n {
        r := s[..i] + s[i + 1..];
        assert s == s[..i] + [n] + s[i + 1..];
        assert n !in s[i + 1..];
        return;
      }
    }
    r := s;
  }
}

/** The ordered writer of node/src/stream_writer_sorted.rs, against a hostile socket and channel. */
module OrderedWriting {
  import opened Basics
  import opened SequenceBuffering

  /**
   * One answer of `poll_write`: it took the first n bytes (all of them, when n is larger), it is not
   * ready, it failed in a way that is retried at once, or the stream is dead.
   */
  datatype WriteAnswer = Accepted(n: nat) | WouldBlock | RetryableError | DeadStream

  datatype ShutdownAnswer = ShutDown | ShutdownPending | ShutdownFailed

  /**
   * What the environment does during one `poll`: the packets the channel holds, whether it is then
   * closed, the socket's answers to writes (not ready once they run out), its answer to a shutdown.
   */
  datatype Script = Script(arrivals: seq<SequencedPacket>, closed: bool,
                           writes: seq<WriteAnswer>, shutdown: ShutdownAnswer)

  datatype WriteStatus = StreamInError | BufferNotEmpty | BufferEmpty

  datatype PollResult = NotReady | Ready | Error

  /** The writer, with the history of what it took from the channel and what the socket accepted. */
  datatype Writer = Writer(view: View, shuttingDown: bool, received: seq<SequencedPacket>, written: Bytes)

  const FRESH := Writer(View(0, map[]), false, [], [])

  function ReceiveOne(w: Writer, p: SequencedPacket): Writer {
    w.(view := w.view.Push(p), received := w.received + [p])
  }

  function Receive(w: Writer, arrivals: seq<SequencedPacket>): Writer
    decreases |arrivals|
  {
    if arrivals == [] then w else Receive(ReceiveOne(w, arrivals[0]), arrivals[1..])
  }

  function AfterShutdown(answer: ShutdownAnswer): WriteStatus {
    match answer
    case ShutDown => BufferEmpty
    case ShutdownPending => BufferNotEmpty
    case ShutdownFailed => StreamInError
  }

  function Min(a: nat, b: nat): nat {
    if a < b then a else b
  }

  /** The loop of `write_from_buffer_to_stream`. */
  function WriteOut(w: Writer, writes: seq<WriteAnswer>, shutdown: ShutdownAnswer): (Writer, WriteStatus)
    requires w.view.Valid()
    decreases |writes|
  {
    var (packet, view) := w.view.Poll();
    if packet.None? then (w, BufferEmpty)
    else if writes == [] || writes[0].WouldBlock? then (w.(view := view.Repush(packet.value)), BufferNotEmpty)
    else
      match writes[0]
      case DeadStream => (w.(view := view), StreamInError)
      case RetryableError => WriteOut(w.(view := view.Repush(packet.value)), writes[1..], shutdown)
      case Accepted(n) =>
        var data := packet.value.data;
        var len := Min(n, |data|);
        var w' := w.(written := w.written + data[..len]);
        if len != |data| then
          WriteOut(w'.(view := view.Repush(packet.value.(data := data[len..]))), writes[1..], shutdown)
        else if packet.value.lastData then
          (w'.(view := view, shuttingDown := true), AfterShutdown(shutdown))
        else WriteOut(w'.(view := view), writes[1..], shutdown)
  }

  function PollOnce(w: Writer, script: Script): (Writer, PollResult)
    requires w.view.Valid()
  {
    if w.shuttingDown then
      (w, match script.shutdown case ShutDown => Ready case ShutdownPending => NotReady case ShutdownFailed => Error)
    else
      ReceiveKeepsValid(w, script.arrivals);
      var (w', status) := WriteOut(Receive(w, script.arrivals), script.writes, script.shutdown);
      (w', if status == StreamInError then Error
           else if !script.closed || status == BufferNotEmpty then NotReady
           else Ready)
  }

  lemma {:induction false} ReceiveKeepsValid(w: Writer, arrivals: seq<SequencedPacket>)
    requires w.view.Valid()
    ensures Receive(w, arrivals).view.Valid()
    decreases |arrivals|
  {
    if arrivals == [] {
    } else {
      ReceiveKeepsValid(ReceiveOne(w, arrivals[0]), arrivals[1..]);
    }
  }

  class StreamWriterSorted {
    const sequenceBuffer: SequenceBuffer
    var shuttingDown: bool
    /** The bytes the socket has accepted. */
    var stream: Bytes
    ghost var received: seq<SequencedPacket>

    ghost predicate Valid()
      reads this, sequenceBuffer
    {
      sequenceBuffer.Valid()
    }

    ghost function State(): (w: Writer)
      requires Valid()
      reads this, sequenceBuffer
      ensures w.view.Valid()
    {
      Writer(sequenceBuffer.Contents(), shuttingDown, received, stream)
    }

    constructor ()
      ensures Valid() && State() == FRESH && fresh(sequenceBuffer)
    {
      sequenceBuffer := new SequenceBuffer();
      shuttingDown, stream, received := false, [], [];
    }

    method ReadDataFromChannel(arrivals: seq<SequencedPacket>)
      requires Valid()
      modifies this, sequenceBuffer
      ensures Valid() && State() == Receive(old(State()), arrivals)
    {
      for i := 0 to |arrivals|
        invariant Valid()
        invariant Receive(State(), arrivals[i..]) == Receive(old(State()), arrivals)
      {
        assert arrivals[i..][1..] == arrivals[i + 1..];
        sequenceBuffer.Push(arrivals[i]);
        received := received + [arrivals[i]];
      }
      assert arrivals[|arrivals|..] == [];
    }

    method WriteFromBufferToStream(writes: seq<WriteAnswer>, shutdown: ShutdownAnswer) returns (status: WriteStatus)
      requires Valid()
      modifies this, sequenceBuffer
      ensures Valid() && (State(), status) == WriteOut(old(State()), writes, shutdown)
    {
      var i := 0;
      while true
        invariant 0 <= i <= |writes| && Valid()
        invariant WriteOut(State(), writes[i..], shutdown) == WriteOut(old(State()), writes, shutdown)
        decreases |writes| - i
      {
        var packet := sequenceBuffer.Poll();
        if packet == None {
          return BufferEmpty;
        }
        var p := packet.value;
        var answer := if i < |writes| then writes[i] else WouldBlock;
        assert i < |writes| ==> writes[i..][1..] == writes[i + 1..];
        match answer {
          case DeadStream =>
            return StreamInError;
          case RetryableError =>
            sequenceBuffer.Repush(p);
          case WouldBlock =>
            sequenceBuffer.Repush(p);
            return BufferNotEmpty;
          case Accepted(n) =>
            var len := Min(n, |p.data|);
            stream := stream + p.data[..len];
            if len != |p.data| {
              sequenceBuffer.Repush(SequencedPacket(p.data[len..], p.number, p.lastData));
            } else if p.lastData {
              shuttingDown := true;
              return AfterShutdown(shutdown);
            }
        }
        i := i + 1;
      }
    }

    method Poll(script: Script) returns (result: PollResult)
      requires Valid()
      modifies this, sequenceBuffer
      ensures Valid() && (State(), result) == PollOnce(old(State()), script)
    {
      if shuttingDown {
        match script.shutdown
        case ShutDown => return Ready;
        case ShutdownPending => return NotReady;
        case ShutdownFailed => return Error;
      }
      ReadDataFromChannel(script.arrivals);
      var status := WriteFromBufferToStream(script.writes, script.shutdown);
      if status == StreamInError {
        result := Error;
      } else if !script.closed || status == BufferNotEmpty {
        result := NotReady;
      } else {
        result := Ready;
      }
    }
  }

  // What the socket should see

  /** The first packet to arrive under each number. */
  ghost function FirstArrivals(received: seq<SequencedPacket>): map<nat, SequencedPacket> {
    if received == [] then map[]
    else
      var m := FirstArrivals(received[..|received| - 1]);
      var p := received[|received| - 1];
      if p.number in m then m else m[p.number := p]
  }

  ghost predicate Complete(m: map<nat, SequencedPacket>, k: nat) {
    forall i: nat :: i < k ==> i in m
  }

  /** The data of packets 0 .. k-1, in sequence order. */
  ghost function InOrder(m: map<nat, SequencedPacket>, k: nat): Bytes
    requires Complete(m, k)
  {
    if k == 0 then [] else InOrder(m, k - 1) + m[k - 1].data
  }

  /** Packets from `next` on are waiting untouched, except that the first may have been cut short. */
  ghost predicate Waiting(v: View, m: map<nat, SequencedPacket>) {
    && Complete(m, v.next)
    && (forall n :: n in m ==> m[n].number == n)
    && (forall n :: n in v.pending <==> n in m && n >= v.next)
    && (forall n :: n in v.pending && n > v.next ==> v.pending[n] == m[n])
    && (v.next in v.pending ==>
          && v.pending[v.next].number == v.next
          && v.pending[v.next].lastData == m[v.next].lastData
          && |v.pending[v.next].data| <= |m[v.next].data|)
  }

  /** The part of packet `next` that is still to be written. */
  ghost function Remainder(v: View): Bytes {
    if v.next in v.pending then v.pending[v.next].data else []
  }

  /** What has been written and the remainder are, together, packets 0 .. next. */
  ghost predicate Exact(w: Writer, m: map<nat, SequencedPacket>)
    requires Complete(m, w.view.next)
  {
    w.written + Remainder(w.view)
    == InOrder(m, w.view.next) + (if w.view.next in m then m[w.view.next].data else [])
  }

  /** Only the packet just below `next` can have been marked last, and then the writer is shutting down. */
  ghost predicate LastMeansShutdown(w: Writer, m: map<nat, SequencedPacket>)
    requires Complete(m, w.view.next)
  {
    && (forall n: nat :: n < w.view.next && m[n].lastData ==> w.shuttingDown && n + 1 == w.view.next)
    && (w.shuttingDown ==> w.view.next > 0 && m[w.view.next - 1].lastData && w.written == InOrder(m, w.view.next))
  }

  ghost predicate Inv(w: Writer) {
    var m := FirstArrivals(w.received);
    Waiting(w.view, m) && Exact(w, m) && LastMeansShutdown(w, m)
  }

  /** What holds even after a dead stream has cost the writer the packet it was writing. */
  ghost predicate PrefixSafe(w: Writer) {
    var m := FirstArrivals(w.received);
    && Complete(m, w.view.next)
    && w.written <= InOrder(m, w.view.next) + (if w.view.next in m then m[w.view.next].data else [])
  }

  lemma {:induction false} InvIsPrefixSafe(w: Writer)
    requires Inv(w)
    ensures PrefixSafe(w) && w.view.Valid()
  {
  }

  lemma {:induction false} InOrderAgrees(m: map<nat, SequencedPacket>, m': map<nat, SequencedPacket>, k: nat)
    requires Complete(m, k) && Complete(m', k) && forall i: nat :: i < k ==> m[i] == m'[i]
    ensures InOrder(m, k) == InOrder(m', k)
  {
    if k == 0 {
    } else {
      InOrderAgrees(m, m', k - 1);
    }
  }

  lemma {:induction false} ReceiveOneKeepsInv(w: Writer, p: SequencedPacket)
    requires Inv(w)
    ensures Inv(ReceiveOne(w, p))
  {
    var m := FirstArrivals(w.received);
    var received := w.received + [p];
    assert received[..|received| - 1] == w.received;
    assert FirstArrivals(received) == if p.number in m then m else m[p.number := p];
    hide FirstArrivals;
    if p.number !in m {
      NewArrival(w, m, p);
    }
  }

  lemma {:induction false} NewArrival(w: Writer, m: map<nat, SequencedPacket>, p: SequencedPacket)
    requires Waiting(w.view, m) && Exact(w, m) && LastMeansShutdown(w, m) && p.number !in m
    ensures var w' := ReceiveOne(w, p); var m' := m[p.number := p];
            Waiting(w'.view, m') && Exact(w', m') && LastMeansShutdown(w', m')
  {
    var m' := m[p.number := p];
    assert p.number >= w.view.next;
    InOrderAgrees(m, m', w.view.next);
    hide InOrder;
    if w.view.next !in m {
      assert w.written == w.written + [] == InOrder(m, w.view.next) + [] == InOrder(m, w.view.next);
    }
  }

  lemma {:induction false} ReceiveKeepsInv(w: Writer, arrivals: seq<SequencedPacket>)
    requires Inv(w)
    ensures Inv(Receive(w, arrivals))
    decreases |arrivals|
  {
    hide Inv, ReceiveOne;
    if arrivals == [] {
    } else {
      ReceiveOneKeepsInv(w, arrivals[0]);
      ReceiveKeepsInv(ReceiveOne(w, arrivals[0]), arrivals[1..]);
    }
  }

  lemma {:induction false} ReceiveLogs(w: Writer, arrivals: seq<SequencedPacket>)
    ensures var w' := Receive(w, arrivals);
            w'.received == w.received + arrivals && w'.written == w.written && w'.shuttingDown == w.shuttingDown
    decreases |arrivals|
  {
    if arrivals == [] {
    } else {
      ReceiveLogs(ReceiveOne(w, arrivals[0]), arrivals[1..]);
      assert w.received + [arrivals[0]] + arrivals[1..] == w.received + arrivals;
    }
  }

  /** A polled packet put back whole leaves the writer as it was. */
  lemma {:induction false} RepushUndoesPoll(v: View)
    requires v.Valid() && v.next in v.pending
    ensures v.Poll().1.Repush(v.pending[v.next]) == v
  {
  }

  lemma {:induction false} AcceptPartKeepsInv(w: Writer, len: nat)
    requires Inv(w) && w.view.Valid() && !w.shuttingDown
    requires w.view.next in w.view.pending && len < |w.view.pending[w.view.next].data|
    ensures var p := w.view.pending[w.view.next];
            Inv(w.(view := w.view.Poll().1.Repush(p.(data := p.data[len..])), written := w.written + p.data[..len]))
  {
    var p := w.view.pending[w.view.next];
    assert p.data == p.data[..len] + p.data[len..];
    var w' := w.(view := w.view.Poll().1.Repush(p.(data := p.data[len..])), written := w.written + p.data[..len]);
    assert w'.written + Remainder(w'.view) == w.written + Remainder(w.view);
  }

  lemma {:induction false} AcceptAllKeepsInv(w: Writer)
    requires Inv(w) && w.view.Valid() && w.view.next in w.view.pending && !w.shuttingDown
    ensures var p := w.view.pending[w.view.next];
            Inv(w.(view := w.view.Poll().1, written := w.written + p.data, shuttingDown := p.lastData))
  {
    var p := w.view.pending[w.view.next];
    var w' := w.(view := w.view.Poll().1, written := w.written + p.data, shuttingDown := p.lastData);
    var m := FirstArrivals(w.received);
    assert Complete(m, w.view.next + 1);
    assert w'.written == InOrder(m, w.view.next + 1);
  }

  /** The write loop keeps the invariant, or dies leaving a prefix written. */
  lemma {:induction false} WriteOutKeepsInv(w: Writer, writes: seq<WriteAnswer>, shutdown: ShutdownAnswer)
    requires Inv(w) && w.view.Valid() && !w.shuttingDown
    ensures var (w', status) := WriteOut(w, writes, shutdown);
            && w'.received == w.received && w.written <= w'.written
            && PrefixSafe(w')
            && (status != StreamInError || w'.shuttingDown ==> Inv(w') && w'.view.Valid())
            && (status == BufferEmpty && !w'.shuttingDown ==> w'.view.next !in w'.view.pending)
    decreases |writes|
  {
    hide Inv, PrefixSafe;
    InvIsPrefixSafe(w);
    var v := w.view;
    if v.next in v.pending {
      var p := v.pending[v.next];
      RepushUndoesPoll(v);
      if writes != [] {
        match writes[0]
        case WouldBlock =>
        case RetryableError =>
          WriteOutKeepsInv(w, writes[1..], shutdown);
        case DeadStream =>
          DeadStreamIsPrefixSafe(w);
        case Accepted(n) =>
          var len := Min(n, |p.data|);
          if len != |p.data| {
            AcceptPartKeepsInv(w, len);
            var w1 := w.(view := v.Poll().1.Repush(p.(data := p.data[len..])), written := w.written + p.data[..len]);
            InvIsPrefixSafe(w1);
            WriteOutKeepsInv(w1, writes[1..], shutdown);
          } else {
            AcceptAllKeepsInv(w);
            assert p.data[..len] == p.data;
            var w1 := w.(view := v.Poll().1, written := w.written + p.data, shuttingDown := p.lastData);
            InvIsPrefixSafe(w1);
            if !p.lastData {
              WriteOutKeepsInv(w1, writes[1..], shutdown);
            }
          }
      }
    }
  }

  lemma {:induction false} DeadStreamIsPrefixSafe(w: Writer)
    requires Inv(w) && w.view.Valid() && w.view.next in w.view.pending
    ensures PrefixSafe(w.(view := w.view.Poll().1))
  {
    var m := FirstArrivals(w.received);
    assert Complete(m, w.view.next + 1);
    assert w.written <= InOrder(m, w.view.next + 1);
  }

  // Whole runs: polled until the future completes or fails

  datatype Outcome = Outcome(writer: Writer, result: PollResult)

  function Run(scripts: seq<Script>): (o: Outcome)
    ensures o.result == NotReady ==> o.writer.view.Valid()
  {
    if scripts == [] then Outcome(FRESH, NotReady)
    else
      var before := Run(scripts[..|scripts| - 1]);
      if before.result != NotReady then before
      else
        var (w, result) := PollOnce(before.writer, scripts[|scripts| - 1]);
        assert result == NotReady ==> w.view.Valid() by {
          ReceiveKeepsValid(before.writer, scripts[|scripts| - 1].arrivals);
          WriteOutKeepsValid(Receive(before.writer, scripts[|scripts| - 1].arrivals),
                             scripts[|scripts| - 1].writes, scripts[|scripts| - 1].shutdown);
        }
        Outcome(w, result)
  }

  lemma {:induction false} WriteOutKeepsValid(w: Writer, writes: seq<WriteAnswer>, shutdown: ShutdownAnswer)
    requires w.view.Valid()
    ensures WriteOut(w, writes, shutdown).0.view.Valid()
    decreases |writes|
  {
    var v := w.view;
    if v.next in v.pending && writes != [] {
      var p := v.pending[v.next];
      RepushUndoesPoll(v);
      match writes[0]
      case RetryableError => WriteOutKeepsValid(w, writes[1..], shutdown);
      case Accepted(n) =>
        var len := Min(n, |p.data|);
        var w' := w.(written := w.written + p.data[..len]);
        if len != |p.data| {
          WriteOutKeepsValid(w'.(view := v.Poll().1.Repush(p.(data := p.data[len..]))), writes[1..], shutdown);
        } else if !p.lastData {
          WriteOutKeepsValid(w'.(view := v.Poll().1), writes[1..], shutdown);
        }
      case _ =>
    }
  }

  lemma {:induction false} PollKeepsInv(w: Writer, script: Script)
    requires Inv(w) && w.view.Valid()
    ensures var (w', result) := PollOnce(w, script);
            && w.written <= w'.written
            && PrefixSafe(w')
            && (result != Error || w'.shuttingDown ==> Inv(w'))
            && (result == Ready && !w'.shuttingDown ==> script.closed && w'.view.next !in w'.view.pending)
            && w'.received == w.received + (if w.shuttingDown then [] else script.arrivals)
  {
    hide Inv, PrefixSafe;
    InvIsPrefixSafe(w);
    if !w.shuttingDown {
      ReceiveKeepsInv(w, script.arrivals);
      ReceiveLogs(w, script.arrivals);
      ReceiveKeepsValid(w, script.arrivals);
      WriteOutKeepsInv(Receive(w, script.arrivals), script.writes, script.shutdown);
    }
  }

  lemma {:induction false} RunKeepsInv(scripts: seq<Script>)
    ensures PrefixSafe(Run(scripts).writer)
    ensures Run(scripts).result != Error || Run(scripts).writer.shuttingDown ==> Inv(Run(scripts).writer)
    ensures Run(scripts).result == Ready && !Run(scripts).writer.shuttingDown ==>
              Run(scripts).writer.view.next !in Run(scripts).writer.view.pending
  {
    if scripts == [] {
      assert Inv(FRESH) && PrefixSafe(FRESH);
    } else {
      hide Inv, PrefixSafe;
      var init := scripts[..|scripts| - 1];
      RunKeepsInv(init);
      if Run(init).result == NotReady {
        PollKeepsInv(Run(init).writer, scripts[|scripts| - 1]);
      }
    }
  }

  /**
   * Prefix safety: at every moment of every run, also when the stream has died, the bytes the
   * socket accepted are a prefix of the packets' data in sequence order, packets 0 .. k-1 all
   * having arrived.
   */
  lemma {:induction false} PrefixSafety(scripts: seq<Script>) returns (k: nat)
    ensures var w := Run(scripts).writer; var m := FirstArrivals(w.received);
            Complete(m, k) && w.written <= InOrder(m, k)
  {
    RunKeepsInv(scripts);
    var w := Run(scripts).writer;
    var m := FirstArrivals(w.received);
    k := if w.view.next in m then w.view.next + 1 else w.view.next;
    assert Complete(m, k);
    if w.view.next !in m {
      assert InOrder(m, k) + [] == InOrder(m, k);
    }
  }

  /** The data waiting under numbers next .. k-1. */
  ghost function Waits(v: View, k: nat): Bytes
    requires v.next <= k && forall n: nat :: v.next <= n < k ==> n in v.pending
  {
    if k == v.next then [] else Waits(v, k - 1) + v.pending[k - 1].data
  }

  /**
   * Nothing is lost or repeated: in a run that has not failed, with k the first number that is
   * missing, what is written and what waits below k are exactly packets 0 .. k-1 in order.
   */
  lemma {:induction false} NothingLost(scripts: seq<Script>, k: nat)
    requires Run(scripts).result != Error
    requires var m := FirstArrivals(Run(scripts).writer.received); Complete(m, k) && k !in m
    ensures var w := Run(scripts).writer;
            && w.view.next <= k && (forall n: nat :: w.view.next <= n < k ==> n in w.view.pending)
            && w.written + Waits(w.view, k) == InOrder(FirstArrivals(w.received), k)
  {
    RunKeepsInv(scripts);
    var w := Run(scripts).writer;
    assert w.view.next <= k;
    if w.view.next == k {
      WrittenBelowMissing(w);
    } else {
      WaitsAddsUp(w, k);
    }
  }

  lemma {:induction false} WrittenBelowMissing(w: Writer)
    requires Inv(w) && w.view.next !in FirstArrivals(w.received)
    ensures w.written == InOrder(FirstArrivals(w.received), w.view.next)
  {
    assert w.written + [] == w.written;
  }

  lemma {:induction false} WaitsAddsUp(w: Writer, k: nat)
    requires Inv(w) && w.view.next < k && Complete(FirstArrivals(w.received), k)
    ensures forall n: nat :: w.view.next <= n < k ==> n in w.view.pending
    ensures w.written + Waits(w.view, k) == InOrder(FirstArrivals(w.received), k)
  {
    var m := FirstArrivals(w.received);
    assert k - 1 in m;
    if k == w.view.next + 1 {
      assert Waits(w.view, k) == Remainder(w.view);
    } else {
      WaitsAddsUp(w, k - 1);
      assert w.view.pending[k - 1] == m[k - 1];
      assert w.written + Waits(w.view, k) == w.written + Waits(w.view, k - 1) + m[k - 1].data;
    }
  }

  // Shutting down

  lemma {:induction false} ShutdownIsSilent(scripts: seq<Script>, more: seq<Script>)
    requires Run(scripts).writer.shuttingDown
    ensures Run(scripts + more).writer == Run(scripts).writer
    decreases |more|
  {
    if more == [] {
      assert scripts + more == scripts;
    } else {
      var init := more[..|more| - 1];
      ShutdownIsSilent(scripts, init);
      assert (scripts + more)[..|scripts + more| - 1] == scripts + init;
    }
  }

  /**
   * Shutdown safety: once a packet marked as the last has been written in full, the output is the
   * data up to and including it, and nothing that happens later writes another byte. (In a run that
   * fails before shutdown begins, the packet below `next` was polled but not written.)
   */
  lemma {:induction false} NothingAfterLastData(scripts: seq<Script>, n: nat, more: seq<Script>)
    requires Run(scripts).result != Error || Run(scripts).writer.shuttingDown
    requires n < Run(scripts).writer.view.next
    requires n in FirstArrivals(Run(scripts).writer.received)
    requires FirstArrivals(Run(scripts).writer.received)[n].lastData
    ensures var m := FirstArrivals(Run(scripts).writer.received);
            Complete(m, n + 1) && Run(scripts + more).writer.written == InOrder(m, n + 1)
  {
    RunKeepsInv(scripts);
    ShutdownIsSilent(scripts, more);
  }

  /**
   * Completion without a last packet happens only on a closed channel, with every packet below the
   * first missing number written in full. Packets past that number are lost: nothing that arrived
   * is left unwritten exactly when no number at or past the first missing one arrived.
   */
  lemma {:induction false} ReadyMeansWritten(scripts: seq<Script>)
    requires scripts != [] && Run(scripts[..|scripts| - 1]).result == NotReady
    requires Run(scripts).result == Ready && !Run(scripts).writer.shuttingDown
    ensures scripts[|scripts| - 1].closed
    ensures var w := Run(scripts).writer; var m := FirstArrivals(w.received);
            && Complete(m, w.view.next) && w.view.next !in m
            && w.written == InOrder(m, w.view.next)
            && (w.view.pending == map[] <==> forall n :: n in m ==> n < w.view.next)
  {
    RunKeepsInv(scripts);
    RunKeepsInv(scripts[..|scripts| - 1]);
    PollKeepsInv(Run(scripts[..|scripts| - 1]).writer, scripts[|scripts| - 1]);
    WrittenBelowMissing(Run(scripts).writer);
    var w := Run(scripts).writer;
    assert w.view.pending == map[] <==> forall n :: n !in w.view.pending;
  }

  /** A lone packet numbered 1 on a channel that closes: the writer reports success and writes nothing. */
  lemma {:induction false} ReadyDropsPastGap(data: Bytes, writes: seq<WriteAnswer>)
    ensures var o := Run([Script([SequencedPacket(data, 1, false)], true, writes, ShutDown)]);
            o.result == Ready && o.writer.written == [] && 1 in o.writer.view.pending
  {
    var p := SequencedPacket(data, 1, false);
    var script := Script([p], true, writes, ShutDown);
    assert [script][..0] == [];
    assert [p][1..] == [];
    assert Receive(FRESH, [p]) == ReceiveOne(FRESH, p);
  }

  // Progress

  /** A socket that takes every write whole. */
  ghost predicate Willing(writes: seq<WriteAnswer>, v: View) {
    forall i, n :: 0 <= i < |writes| && n in v.pending ==> writes[i].Accepted? && writes[i].n >= |v.pending[n].data|
  }

  /** Everything up to the first missing number, or up to and including a packet marked as the last, is written. */
  ghost predicate WroteAll(w: Writer) {
    var m := FirstArrivals(w.received);
    && Complete(m, w.view.next) && w.written == InOrder(m, w.view.next)
    && if w.shuttingDown then w.view.next > 0 && m[w.view.next - 1].lastData else w.view.next !in m
  }

  lemma {:induction false} NothingLeft(w: Writer)
    requires Inv(w) && (w.shuttingDown || w.view.next !in w.view.pending)
    ensures WroteAll(w)
  {
    if !w.shuttingDown {
      WrittenBelowMissing(w);
    }
  }

  lemma {:induction false} WriteOutWhole(w: Writer, writes: seq<WriteAnswer>, shutdown: ShutdownAnswer)
    requires w.view.Valid() && w.view.next in w.view.pending && !w.shuttingDown
    requires writes != [] && writes[0].Accepted? && writes[0].n >= |w.view.pending[w.view.next].data|
    ensures var p := w.view.pending[w.view.next];
            var w' := w.(view := w.view.Poll().1, written := w.written + p.data, shuttingDown := p.lastData);
            w'.view.Valid()
            && WriteOut(w, writes, shutdown)
               == if p.lastData then (w', AfterShutdown(shutdown)) else WriteOut(w', writes[1..], shutdown)
  {
    var p := w.view.pending[w.view.next];
    assert Min(writes[0].n, |p.data|) == |p.data| && p.data[..|p.data|] == p.data;
  }

  /** Progress: a socket that takes every write whole gets all that the writer may write. */
  lemma {:induction false} WillingSocketDrains(w: Writer, writes: seq<WriteAnswer>, shutdown: ShutdownAnswer)
    requires Inv(w) && w.view.Valid() && !w.shuttingDown
    requires Willing(writes, w.view) && |writes| >= |w.view.pending|
    ensures WroteAll(WriteOut(w, writes, shutdown).0) && WriteOut(w, writes, shutdown).0.received == w.received
    decreases |writes|
  {
    hide WroteAll, Inv;
    var v := w.view;
    if v.next !in v.pending {
      NothingLeft(w);
    } else {
      assert |v.pending| > 0;
      var p := v.pending[v.next];
      var w' := w.(view := v.Poll().1, written := w.written + p.data, shuttingDown := p.lastData);
      AcceptAllKeepsInv(w);
      WriteOutWhole(w, writes, shutdown);
      hide WriteOut;
      if p.lastData {
        NothingLeft(w');
      } else {
        assert w'.view.pending.Keys == v.pending.Keys - {v.next};
        WillingSocketDrains(w', writes[1..], shutdown);
      }
    }
  }

  /** Packets next .. k-1 wait, and packet k does not. */
  ghost predicate WaitsUpTo(v: View, k: nat) {
    v.next <= k && (forall n: nat :: v.next <= n < k ==> n in v.pending) && k !in v.pending
  }

  /** The writes that packets next .. k-1 can take at most: one for each byte, and one for an empty packet. */
  ghost function Work(v: View, k: nat): nat
    requires v.next <= k && forall n: nat :: v.next <= n < k ==> n in v.pending
  {
    if k == v.next then 0
    else Work(v, k - 1) + (if v.pending[k - 1].data == [] then 1 else |v.pending[k - 1].data|)
  }

  lemma {:induction false} WorkAgrees(v: View, v': View, k: nat)
    requires v.next <= v'.next <= k && (forall n: nat :: v.next <= n < k ==> n in v.pending)
    requires forall n: nat :: v'.next <= n < k ==> n in v'.pending
    requires forall n: nat :: v.next < n < k ==> n in v'.pending && v'.pending[n] == v.pending[n]
    requires v.next < k && v'.next <= v.next + 1
    ensures Work(v, k) - (if v.pending[v.next].data == [] then 1 else |v.pending[v.next].data|)
            == Work(v', k) - (if v'.next == v.next then
                                (if v'.pending[v.next].data == [] then 1 else |v'.pending[v.next].data|) else 0)
    decreases k
  {
    if k == v.next + 1 {
      assert Work(v, v.next) == 0 && Work(v', v'.next) == 0;
    } else {
      WorkAgrees(v, v', k - 1);
    }
  }

  function CountAccepted(writes: seq<WriteAnswer>): nat {
    if writes == [] then 0 else CountAccepted(writes[1..]) + (if writes[0].Accepted? then 1 else 0)
  }

  /** A socket that takes something of each write, if only a byte, or fails in a way that is retried. */
  ghost predicate Eager(writes: seq<WriteAnswer>) {
    forall i :: 0 <= i < |writes| ==> writes[i].RetryableError? || (writes[i].Accepted? && writes[i].n > 0)
  }

  /** Progress in small steps: partial writes and retried errors do not keep the writer from writing all. */
  lemma {:induction false} EagerSocketDrains(w: Writer, writes: seq<WriteAnswer>, shutdown: ShutdownAnswer, k: nat)
    requires Inv(w) && w.view.Valid() && !w.shuttingDown && WaitsUpTo(w.view, k)
    requires Eager(writes) && CountAccepted(writes) >= Work(w.view, k)
    ensures WroteAll(WriteOut(w, writes, shutdown).0) && WriteOut(w, writes, shutdown).0.received == w.received
    decreases |writes|
  {
    hide WroteAll, Inv;
    var v := w.view;
    if v.next == k {
      NothingLeft(w);
    } else {
      var p := v.pending[v.next];
      WorkIsPositive(v, k);
      RepushUndoesPoll(v);
      match writes[0]
      case RetryableError =>
        EagerSocketDrains(w, writes[1..], shutdown, k);
      case Accepted(n) =>
        var len := Min(n, |p.data|);
        if len == |p.data| {
          AcceptAllKeepsInv(w);
          WriteOutWhole(w, writes, shutdown);
          var w' := w.(view := v.Poll().1, written := w.written + p.data, shuttingDown := p.lastData);
          hide WriteOut;
          if p.lastData {
            NothingLeft(w');
          } else {
            WorkAgrees(v, w'.view, k);
            EagerSocketDrains(w', writes[1..], shutdown, k);
          }
        } else {
          AcceptPartKeepsInv(w, len);
          var v' := v.Poll().1.Repush(p.(data := p.data[len..]));
          WorkAgrees(v, v', k);
          EagerSocketDrains(w.(view := v', written := w.written + p.data[..len]), writes[1..], shutdown, k);
        }
    }
  }

  lemma {:induction false} WorkIsPositive(v: View, k: nat)
    requires v.next < k && forall n: nat :: v.next <= n < k ==> n in v.pending
    ensures Work(v, k) > 0
  {
  }

  // Results

  /** The write loop fails only on a dead stream, or when the shutdown it begins fails. */
  lemma {:induction false} WriteOutFails(w: Writer, writes: seq<WriteAnswer>, shutdown: ShutdownAnswer)
    requires w.view.Valid() && !w.shuttingDown
    ensures var (w', status) := WriteOut(w, writes, shutdown);
            && (status == StreamInError ==> DeadStream in writes || (w'.shuttingDown && shutdown == ShutdownFailed))
            && (w'.shuttingDown ==> status == AfterShutdown(shutdown))
            && (!w'.shuttingDown && status == BufferNotEmpty ==> w'.view.next in w'.view.pending)
    decreases |writes|
  {
    var v := w.view;
    if v.next in v.pending && writes != [] {
      var p := v.pending[v.next];
      RepushUndoesPoll(v);
      match writes[0]
      case RetryableError => WriteOutFails(w, writes[1..], shutdown);
      case Accepted(n) =>
        var len := Min(n, |p.data|);
        var w' := w.(written := w.written + p.data[..len]);
        if len != |p.data| {
          WriteOutFails(w'.(view := v.Poll().1.Repush(p.(data := p.data[len..]))), writes[1..], shutdown);
        } else if !p.lastData {
          WriteOutFails(w'.(view := v.Poll().1), writes[1..], shutdown);
        }
      case _ =>
    }
  }

  /**
   * What a poll reports. A writer that is shutting down reports its socket's answer. Any other fails
   * only for a reason, and unless it fails it is done exactly when the channel is closed, everything
   * it may write is written, and a shutdown that this began has been completed.
   */
  lemma {:induction false} PollReports(w: Writer, script: Script)
    requires Inv(w) && w.view.Valid()
    ensures var (w', result) := PollOnce(w, script);
            if w.shuttingDown then
              && w' == w
              && (result == Ready <==> script.shutdown == ShutDown)
              && (result == Error <==> script.shutdown == ShutdownFailed)
            else
              && (result == Error ==>
                    DeadStream in script.writes || (w'.shuttingDown && script.shutdown == ShutdownFailed))
              && (w'.shuttingDown && script.shutdown == ShutdownFailed ==> result == Error)
              && (result != Error ==>
                    (result == Ready
                     <==> script.closed && WroteAll(w') && (w'.shuttingDown ==> script.shutdown == ShutDown)))
  {
    if !w.shuttingDown {
      hide Inv;
      var w1 := Receive(w, script.arrivals);
      ReceiveKeepsInv(w, script.arrivals);
      ReceiveLogs(w, script.arrivals);
      ReceiveKeepsValid(w, script.arrivals);
      WriteOutKeepsInv(w1, script.writes, script.shutdown);
      WriteOutFails(w1, script.writes, script.shutdown);
      var (w', status) := WriteOut(w1, script.writes, script.shutdown);
      hide WriteOut, Receive;
      if status != StreamInError {
        if w'.shuttingDown || w'.view.next !in w'.view.pending {
          NothingLeft(w');
        } else {
          PendingIsNotWritten(w');
        }
      }
    }
  }

  lemma {:induction false} PendingIsNotWritten(w: Writer)
    requires Inv(w) && w.view.next in w.view.pending && !w.shuttingDown
    ensures !WroteAll(w)
  {
    hide FirstArrivals;
  }

  /** A run fails only if some socket was dead or could not be shut down. */
  lemma {:induction false} FailureHasACause(scripts: seq<Script>)
    requires Run(scripts).result == Error
    ensures exists i :: 0 <= i < |scripts|
                        && (DeadStream in scripts[i].writes || scripts[i].shutdown == ShutdownFailed)
  {
    hide Inv, PollOnce, PrefixSafe;
    var n := |scripts| - 1;
    var init := scripts[..n];
    if Run(init).result == Error {
      FailureHasACause(init);
      var i :| 0 <= i < |init| && (DeadStream in init[i].writes || init[i].shutdown == ShutdownFailed);
      assert scripts[i] == init[i];
    } else {
      RunKeepsInv(init);
      PollReports(Run(init).writer, scripts[n]);
    }
  }

  /** When a run is done, in terms of its last poll. */
  lemma {:induction false} ReadyIff(scripts: seq<Script>)
    requires scripts != [] && Run(scripts[..|scripts| - 1]).result == NotReady && Run(scripts).result != Error
    ensures var last := scripts[|scripts| - 1];
            var before := Run(scripts[..|scripts| - 1]).writer;
            var w := Run(scripts).writer;
            Run(scripts).result == Ready
            <==> && (w.shuttingDown ==> last.shutdown == ShutDown)
                 && (before.shuttingDown || (last.closed && WroteAll(w)))
  {
    hide Inv, PollOnce, PrefixSafe;
    RunKeepsInv(scripts[..|scripts| - 1]);
    PollReports(Run(scripts[..|scripts| - 1]).writer, scripts[|scripts| - 1]);
  }

  // How the answers of a socket add up

  /** Answers that came before, after which the loop still has something to write and has not been told to wait. */
  ghost predicate StillWriting(w: Writer, before: seq<WriteAnswer>, shutdown: ShutdownAnswer)
    requires w.view.Valid()
  {
    var (w', status) := WriteOut(w, before, shutdown);
    WouldBlock !in before && status == BufferNotEmpty && !w'.shuttingDown
  }

  lemma {:induction false} WriteOutGoesOn(w: Writer, before: seq<WriteAnswer>, later: seq<WriteAnswer>,
                                          shutdown: ShutdownAnswer)
    requires w.view.Valid() && !w.shuttingDown && StillWriting(w, before, shutdown)
    ensures var w' := WriteOut(w, before, shutdown).0;
            w'.view.Valid() && !w'.shuttingDown && w'.view.next in w'.view.pending
            && WriteOut(w, before + later, shutdown) == WriteOut(w', later, shutdown)
    decreases |before|
  {
    var v := w.view;
    RepushUndoesPoll(v);
    if before == [] {
      assert before + later == later;
    } else {
      var p := v.pending[v.next];
      assert (before + later)[0] == before[0] && (before + later)[1..] == before[1..] + later;
      assert before[0] in before && forall x :: x in before[1..] ==> x in before;
      match before[0]
      case RetryableError => WriteOutGoesOn(w, before[1..], later, shutdown);
      case Accepted(n) =>
        var len := Min(n, |p.data|);
        var w' := w.(written := w.written + p.data[..len]);
        if len != |p.data| {
          WriteOutGoesOn(w'.(view := v.Poll().1.Repush(p.(data := p.data[len..]))), before[1..], later, shutdown);
        } else {
          WriteOutGoesOn(w'.(view := v.Poll().1), before[1..], later, shutdown);
        }
    }
  }

  /**
   * Whatever the socket answered before: a dead stream ends the loop at once with a failure, a socket
   * that is not ready ends it without one and with everything still in place, and an error that is
   * retried changes nothing at all.
   */
  lemma {:induction false} AnswersMean(w: Writer, before: seq<WriteAnswer>, later: seq<WriteAnswer>,
                                       shutdown: ShutdownAnswer)
    requires w.view.Valid() && !w.shuttingDown && StillWriting(w, before, shutdown)
    ensures WriteOut(w, before + ([DeadStream] + later), shutdown).1 == StreamInError
    ensures WriteOut(w, before + ([WouldBlock] + later), shutdown) == WriteOut(w, before, shutdown)
    ensures WriteOut(w, before + ([RetryableError] + later), shutdown) == WriteOut(w, before + later, shutdown)
  {
    var w' := WriteOut(w, before, shutdown).0;
    WriteOutGoesOn(w, before, [DeadStream] + later, shutdown);
    WriteOutGoesOn(w, before, [WouldBlock] + later, shutdown);
    WriteOutGoesOn(w, before, [RetryableError] + later, shutdown);
    WriteOutGoesOn(w, before, later, shutdown);
    WriteOutGoesOn(w, before, [], shutdown);
    assert before + [] == before;
    hide StillWriting;
    RepushUndoesPoll(w'.view);
    assert ([RetryableError] + later)[1..] == later;
  }

  // Reordering

  /** Chunks numbered 0, 1, 2, ... as the stream reader numbers them. */
  function Numbered(chunks: seq<Bytes>): seq<SequencedPacket> {
    seq(|chunks|, i requires 0 <= i < |chunks| => SequencedPacket(chunks[i], i, false))
  }

  lemma {:induction false} FirstArrivalsAreReceived(received: seq<SequencedPacket>)
    ensures var m := FirstArrivals(received);
            && (forall n :: n in m ==> m[n] in received && m[n].number == n)
            && (forall p :: p in received ==> p.number in m)
  {
    if received == [] {
    } else {
      var init := received[..|received| - 1];
      FirstArrivalsAreReceived(init);
      assert received == init + [received[|received| - 1]];
    }
  }

  lemma {:induction false} InOrderIsFlatten(m: map<nat, SequencedPacket>, chunks: seq<Bytes>, k: nat)
    requires k <= |chunks| && Complete(m, k)
    requires forall i: nat :: i < k ==> m[i].data == chunks[i]
    ensures InOrder(m, k) == Flatten(chunks[..k])
  {
    if k == 0 {
    } else {
      InOrderIsFlatten(m, chunks, k - 1);
      assert chunks[..k] == chunks[..k - 1] + [chunks[k - 1]];
      FlattenConcat(chunks[..k - 1], [chunks[k - 1]]);
      assert Flatten([chunks[k - 1]]) == chunks[k - 1];
    }
  }

  /** Numbered chunks, and after them the empty packet that reports the end of the stream. */
  function Closed(chunks: seq<Bytes>): seq<SequencedPacket> {
    Numbered(chunks) + [SequencedPacket([], |chunks|, true)]
  }

  /** However numbered chunks are permuted and spread over polls, a completed writer has written them in order. */
  lemma {:induction false} OrderedDelivery(chunks: seq<Bytes>, scripts: seq<Script>)
    requires Run(scripts).result == Ready
    requires multiset(Run(scripts).writer.received) == multiset(Numbered(chunks))
    ensures Run(scripts).writer.written == Flatten(chunks) && !Run(scripts).writer.shuttingDown
  {
    RunKeepsInv(scripts);
    var w := Run(scripts).writer;
    var m := FirstArrivals(w.received);
    PermutedArrivals(Numbered(chunks), w.received);
    hide Run, FirstArrivals, Numbered;
    NumberedAt(chunks);
    assert !w.shuttingDown by {
      var below: nat := if w.view.next > 0 then w.view.next - 1 else 0;
      assert below < w.view.next ==> below in m;
    }
    WrittenBelowMissing(w);
    assert |chunks| !in m;
    WholeInOrder(m, chunks);
  }

  /**
   * With the closing packet among them, a completed writer has written them all in order and is
   * shutting its socket down.
   */
  lemma {:induction false} ClosedDelivery(chunks: seq<Bytes>, scripts: seq<Script>)
    requires Run(scripts).result == Ready
    requires multiset(Run(scripts).writer.received) == multiset(Closed(chunks))
    ensures Run(scripts).writer.written == Flatten(chunks) && Run(scripts).writer.shuttingDown
  {
    RunKeepsInv(scripts);
    var w := Run(scripts).writer;
    var m := FirstArrivals(w.received);
    var n := |chunks|;
    PermutedArrivals(Closed(chunks), w.received);
    hide Run, FirstArrivals, Numbered;
    NumberedAt(chunks);
    assert forall i: nat :: i in m <==> i <= n;
    assert m[n].lastData;
    assert w.shuttingDown || n < w.view.next;
    NothingLeft(w);
    assert w.view.next == n + 1 && m[n].data == [];
    WholeInOrder(m, chunks);
    assert InOrder(m, n + 1) == InOrder(m, n) + [];
  }

  lemma {:induction false} NumberedAt(chunks: seq<Bytes>)
    ensures |Numbered(chunks)| == |chunks|
    ensures forall i :: 0 <= i < |chunks| ==> Numbered(chunks)[i] == SequencedPacket(chunks[i], i, false)
  {
  }

  lemma {:induction false} WholeInOrder(m: map<nat, SequencedPacket>, chunks: seq<Bytes>)
    requires Complete(m, |chunks|) && forall i: nat :: i < |chunks| ==> m[i].data == chunks[i]
    ensures InOrder(m, |chunks|) == Flatten(chunks)
  {
    InOrderIsFlatten(m, chunks, |chunks|);
    assert chunks[..|chunks|] == chunks;
  }

  /** Packets that carry their own positions as numbers arrive, permuted, under exactly those numbers. */
  lemma {:induction false} PermutedArrivals(packets: seq<SequencedPacket>, received: seq<SequencedPacket>)
    requires multiset(received) == multiset(packets)
    requires forall i :: 0 <= i < |packets| ==> packets[i].number == i
    ensures forall n: nat :: n in FirstArrivals(received) <==> n < |packets|
    ensures forall n :: n in FirstArrivals(received) ==> FirstArrivals(received)[n] == packets[n]
  {
    FirstArrivalsAreReceived(received);
    var m := FirstArrivals(received);
    forall p ensures p in received <==> p in packets {
      assert p in multiset(received) <==> p in multiset(packets);
    }
    hide FirstArrivals;
    forall n: nat
      ensures n in m <==> n < |packets|
      ensures n in m ==> m[n] == packets[n]
    {
      if n < |packets| {
        assert packets[n] in received;
      }
      if n in m {
        assert m[n] in packets;
      }
    }
  }
}
