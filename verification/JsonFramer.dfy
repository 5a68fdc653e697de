/**
 * The one-pass reading of a clandestine byte stream: what counts as a frame, stated without
 * buffers, rescans or offsets.
 */
module JsonAutomaton {
  import opened Basics

  const OPEN_BRACE: Byte := 123
  const CLOSE_BRACE: Byte := 125
  const SINGLE_QUOTE: Byte := 39
  const DOUBLE_QUOTE: Byte := 34
  const BACKSLASH: Byte := 92

  /** Lexical position inside a frame: brace depth, which quotes are open, whether a backslash was just read. */
  datatype Lex = Lex(depth: int, single: bool, double: bool, escaped: bool)

  const OUTSIDE := Lex(0, false, false, false)

  function LexStep(l: Lex, b: Byte): Lex {
    if l.escaped then l.(escaped := false)
    else
      var single := if b == SINGLE_QUOTE && !l.double then !l.single else l.single;
      var double := if b == DOUBLE_QUOTE && !l.single then !l.double else l.double;
      if single || double then Lex(l.depth, single, double, b == BACKSLASH)
      else
        var delta := if b == OPEN_BRACE then 1 else if b == CLOSE_BRACE then -1 else 0;
        Lex(l.depth + delta, false, false, false)
  }

  /** The lexical position after reading all of `s` from the outside. */
  function LexOf(s: Bytes): Lex {
    if s == [] then OUTSIDE else LexStep(LexOf(s[..|s| - 1]), s[|s| - 1])
  }

  /** Every non-empty prefix of `s` that is shorter than `limit` has an unclosed brace. */
  ghost predicate UnclosedBelow(s: Bytes, limit: nat) {
    forall k :: 0 < k < limit && k <= |s| ==> LexOf(s[..k]).depth > 0
  }

  /** A frame opens with a brace and closes at its first balanced point, which is its end. */
  ghost predicate IsFrame(f: Bytes) {
    f != [] && f[0] == OPEN_BRACE && UnclosedBelow(f, |f|) && LexOf(f).depth == 0
  }

  /** An unfinished frame, or nothing. */
  ghost predicate IsTail(t: Bytes) {
    t != [] ==> t[0] == OPEN_BRACE && UnclosedBelow(t, |t| + 1)
  }

  /** g0 f1 g1 ... fn gn */
  ghost function Weave(gaps: seq<Bytes>, frames: seq<Bytes>): Bytes
    requires |gaps| == |frames| + 1
  {
    if frames == [] then gaps[0] else gaps[0] + frames[0] + Weave(gaps[1..], frames[1..])
  }

  ghost predicate BraceFree(gaps: seq<Bytes>) {
    forall i :: 0 <= i < |gaps| ==> OPEN_BRACE !in gaps[i]
  }

  // The automaton

  datatype State = Idle | Open(frame: Bytes, lex: Lex) {
    function Held(): Bytes {
      if Idle? then [] else frame
    }
    ghost predicate Reachable() {
      Open? ==> frame != [] && IsTail(frame) && lex == LexOf(frame)
    }
  }

  datatype Fed = Fed(next: State, frame: Option<Bytes>)

  function Feed(q: State, b: Byte): Fed {
    match q
    case Idle =>
      if b == OPEN_BRACE then Fed(Open([b], LexStep(OUTSIDE, b)), None) else Fed(Idle, None)
    case Open(frame, lex) =>
      var lex' := LexStep(lex, b);
      if lex'.depth == 0 then Fed(Idle, Some(frame + [b])) else Fed(Open(frame + [b], lex'), None)
  }

  datatype Reading = Reading(final: State, frames: seq<Bytes>)

  /** Reading a whole stream once, from the left. */
  function Read(q: State, s: Bytes): Reading
    decreases |s|
  {
    if s == [] then Reading(q, [])
    else
      var fed := Feed(q, s[0]);
      var rest := Read(fed.next, s[1..]);
      Reading(rest.final, (if fed.frame.Some? then [fed.frame.value] else []) + rest.frames)
  }

  lemma {:induction false} ReadConcat(q: State, a: Bytes, b: Bytes)
    ensures var ra := Read(q, a); var rb := Read(ra.final, b);
            Read(q, a + b) == Reading(rb.final, ra.frames + rb.frames)
    decreases |a|
  {
    if a == [] {
      assert a + b == b;
    } else {
      assert (a + b)[1..] == a[1..] + b;
      ReadConcat(Feed(q, a[0]).next, a[1..], b);
    }
  }

  /** Two readings in a row, the first of which ends no frame. */
  lemma {:induction false} ReadThen(q: State, a: Bytes, mid: State, b: Bytes, end: Reading)
    requires Read(q, a) == Reading(mid, []) && Read(mid, b) == end
    ensures Read(q, a + b) == end
  {
    ReadConcat(q, a, b);
  }

  lemma {:induction false} ReadGap(g: Bytes)
    requires OPEN_BRACE !in g
    ensures Read(Idle, g) == Reading(Idle, [])
  {
    if g == [] {
    } else {
      assert g[0] in g;
      assert forall b :: b in g[1..] ==> b in g;
      ReadGap(g[1..]);
    }
  }

  /** Inside a frame the automaton holds exactly the bytes read since the opening brace. */
  lemma {:induction false} ReadPrefix(s: Bytes, k: nat)
    requires 0 < k <= |s| && s[0] == OPEN_BRACE && UnclosedBelow(s, k + 1)
    ensures Read(Idle, s[..k]) == Reading(Open(s[..k], LexOf(s[..k])), [])
  {
    var last := s[k - 1];
    assert s[..k] == s[..k - 1] + [last] && s[..k][..k - 1] == s[..k - 1];
    assert LexOf(s[..k]).depth > 0;
    if k == 1 {
      assert s[..1] == [OPEN_BRACE];
      assert LexOf([OPEN_BRACE]) == LexStep(LexOf([]), OPEN_BRACE);
    } else {
      ReadPrefix(s, k - 1);
      ReadConcat(Idle, s[..k - 1], [last]);
      assert Read(Open(s[..k - 1], LexOf(s[..k - 1])), [last]).frames == [];
    }
  }

  lemma {:induction false} ReadTail(t: Bytes)
    requires t != [] && IsTail(t)
    ensures Read(Idle, t) == Reading(Open(t, LexOf(t)), [])
  {
    ReadPrefix(t, |t|);
    assert t[..|t|] == t;
  }

  lemma {:induction false} ReadFrame(f: Bytes)
    requires IsFrame(f)
    ensures Read(Idle, f) == Reading(Idle, [f])
  {
    var n := |f| - 1;
    assert |f| == 1 ==> f == [OPEN_BRACE];
    assert LexOf([OPEN_BRACE]).depth == 1;
    assert f == f[..n] + [f[n]];
    ReadPrefix(f, n);
    ReadConcat(Idle, f[..n], [f[n]]);
    var q := Open(f[..n], LexOf(f[..n]));
    assert Feed(q, f[n]) == Fed(Idle, Some(f));
    assert Read(q, [f[n]]) == Reading(Idle, [f]);
  }

  /** Any split into brace-free gaps, frames and an unfinished tail is the one the automaton reads. */
  lemma {:induction false} ReadsTheSplit(gaps: seq<Bytes>, frames: seq<Bytes>, tail: Bytes)
    requires |gaps| == |frames| + 1 && BraceFree(gaps)
    requires forall i :: 0 <= i < |frames| ==> IsFrame(frames[i])
    requires IsTail(tail)
    ensures var r := Read(Idle, Weave(gaps, frames) + tail);
            r.frames == frames && r.final.Held() == tail
    decreases |frames|
  {
    hide LexOf, LexStep, Feed, Read, IsFrame, IsTail;
    ReadGap(gaps[0]);
    if frames == [] {
      ReadHeld(tail);
      ReadThen(Idle, gaps[0], Idle, tail, Read(Idle, tail));
    } else {
      var rest := Weave(gaps[1..], frames[1..]) + tail;
      ReadsTheSplit(gaps[1..], frames[1..], tail);
      ReadFrameThen(frames[0], rest);
      assert [frames[0]] + frames[1..] == frames;
      WeaveFront(gaps, frames, tail);
      ReadThen(Idle, gaps[0], Idle, frames[0] + rest, Read(Idle, frames[0] + rest));
    }
  }

  lemma {:induction false} ReadHeld(tail: Bytes)
    requires IsTail(tail)
    ensures Read(Idle, tail).frames == [] && Read(Idle, tail).final.Held() == tail
  {
    if tail == [] {
    } else {
      ReadTail(tail);
    }
  }

  lemma {:induction false} ReadFrameThen(f: Bytes, rest: Bytes)
    requires IsFrame(f)
    ensures Read(Idle, f + rest) == Reading(Read(Idle, rest).final, [f] + Read(Idle, rest).frames)
  {
    hide Read, IsFrame;
    ReadFrame(f);
    ReadConcat(Idle, f, rest);
  }

  lemma {:induction false} WeaveFront(gaps: seq<Bytes>, frames: seq<Bytes>, tail: Bytes)
    requires |gaps| == |frames| + 1 && frames != []
    ensures Weave(gaps, frames) + tail == gaps[0] + (frames[0] + (Weave(gaps[1..], frames[1..]) + tail))
  {
  }

  lemma {:induction false} FeedKeepsReachable(q: State, b: Byte)
    requires q.Reachable()
    ensures Feed(q, b).next.Reachable()
    ensures Feed(q, b).frame.Some? ==> IsFrame(Feed(q, b).frame.value)
  {
    match q
    case Idle =>
      assert [b][..0] == [] && [b][..1] == [b];
      assert LexOf([b]) == LexStep(OUTSIDE, b);
    case Open(frame, lex) =>
      var f := frame + [b];
      assert f[..|frame|] == frame && frame[..|frame|] == frame && f[..|f|] == f;
      assert LexOf(f) == LexStep(lex, b);
      DepthNeverJumps(frame, b);
      forall k | 0 < k < |f| ensures LexOf(f[..k]).depth > 0 {
        assert f[..k] == frame[..k];
      }
  }

  lemma {:induction false} DepthNeverJumps(s: Bytes, b: Byte)
    ensures LexOf(s + [b]).depth >= LexOf(s).depth - 1
  {
    assert (s + [b])[..|s|] == s;
  }

  ghost predicate IsSplit(s: Bytes, gaps: seq<Bytes>, frames: seq<Bytes>, tail: Bytes) {
    && |gaps| == |frames| + 1
    && s == Weave(gaps, frames) + tail
    && BraceFree(gaps)
    && (forall i :: 0 <= i < |frames| ==> IsFrame(frames[i]))
    && IsTail(tail)
  }

  /**
   * Conservation: every stream splits as g0 f1 g1 ... fn gn tail, where the f are the frames
   * read from it, no g contains an opening brace, and the tail is what the automaton still holds.
   */
  lemma {:induction false} Conservation(s: Bytes) returns (gaps: seq<Bytes>)
    ensures IsSplit(s, gaps, Read(Idle, s).frames, Read(Idle, s).final.Held())
    ensures Read(Idle, s).final.Reachable()
  {
    if s == [] {
      gaps := [[]];
    } else {
      hide LexOf, LexStep, IsSplit, IsTail, IsFrame;
      var n := |s| - 1;
      var b := s[n];
      var before := Conservation(s[..n]);
      var r := Read(Idle, s[..n]);
      assert s == s[..n] + [b];
      ReadConcat(Idle, s[..n], [b]);
      FeedKeepsReachable(r.final, b);
      gaps := SplitSnoc(s[..n], before, r.frames, r.final, b);
      var fed := Feed(r.final, b);
      assert Read(r.final, [b]) == Reading(fed.next, if fed.frame.Some? then [fed.frame.value] else []);
    }
  }

  /** One more byte: it ends a frame, joins the last gap, or joins the tail. */
  lemma {:induction false} SplitSnoc(s: Bytes, before: seq<Bytes>, frames: seq<Bytes>, q: State, b: Byte)
    returns (gaps: seq<Bytes>)
    requires IsSplit(s, before, frames, q.Held()) && q.Reachable()
    ensures var fed := Feed(q, b);
            IsSplit(s + [b], gaps, frames + (if fed.frame.Some? then [fed.frame.value] else []), fed.next.Held())
  {
    var fed := Feed(q, b);
    FeedKeepsReachable(q, b);
    if fed.frame.Some? {
      gaps := before + [[]];
      SplitSnocFrame(s, before, frames, q.Held(), b);
    } else {
      assert frames + [] == frames;
      if fed.next.Idle? {
        gaps := before[..|before| - 1] + [before[|before| - 1] + [b]];
        SplitSnocGap(s, before, frames, b);
      } else {
        gaps := before;
        assert s + [b] == Weave(gaps, frames) + (q.Held() + [b]);
      }
    }
  }

  lemma {:induction false} SplitSnocFrame(s: Bytes, gaps: seq<Bytes>, frames: seq<Bytes>, tail: Bytes, b: Byte)
    requires IsSplit(s, gaps, frames, tail) && IsFrame(tail + [b])
    ensures IsSplit(s + [b], gaps + [[]], frames + [tail + [b]], [])
  {
    WeaveSnocFrame(gaps, frames, tail + [b]);
    assert s + [b] == Weave(gaps, frames) + (tail + [b]);
    var w := Weave(gaps + [[]], frames + [tail + [b]]);
    assert w + [] == w;
  }

  lemma {:induction false} SplitSnocGap(s: Bytes, gaps: seq<Bytes>, frames: seq<Bytes>, b: Byte)
    requires IsSplit(s, gaps, frames, []) && b != OPEN_BRACE
    ensures IsSplit(s + [b], gaps[..|gaps| - 1] + [gaps[|gaps| - 1] + [b]], frames, [])
  {
    WeaveSnocByte(gaps, frames, b);
    assert s == Weave(gaps, frames);
  }

  lemma {:induction false} WeaveSnocFrame(gaps: seq<Bytes>, frames: seq<Bytes>, f: Bytes)
    requires |gaps| == |frames| + 1
    ensures Weave(gaps + [[]], frames + [f]) == Weave(gaps, frames) + f
    decreases |frames|
  {
    var gs, fs := gaps + [[]], frames + [f];
    if frames == [] {
      assert gs[1..] == [[]] && fs[1..] == [];
      assert Weave(gs[1..], fs[1..]) == [];
    } else {
      assert gs[1..] == gaps[1..] + [[]] && fs[1..] == frames[1..] + [f];
      WeaveSnocFrame(gaps[1..], frames[1..], f);
    }
  }

  lemma {:induction false} WeaveSnocByte(gaps: seq<Bytes>, frames: seq<Bytes>, b: Byte)
    requires |gaps| == |frames| + 1
    ensures Weave(gaps[..|gaps| - 1] + [gaps[|gaps| - 1] + [b]], frames) == Weave(gaps, frames) + [b]
    decreases |frames|
  {
    var gs := gaps[..|gaps| - 1] + [gaps[|gaps| - 1] + [b]];
    if frames == [] {
    } else {
      assert gs[1..] == gaps[1..][..|gaps| - 2] + [gaps[1..][|gaps| - 2] + [b]];
      WeaveSnocByte(gaps[1..], frames[1..], b);
      assert gs[0] == gaps[0];
    }
  }

  /** Trimming a buffer to the bytes that are held never changes what is read later. */
  lemma {:induction false} TrimmingIsInvisible(s: Bytes, later: Bytes)
    ensures var r := Read(Idle, s);
            var whole := Read(Idle, s + later);
            var trimmed := Read(Idle, r.final.Held() + later);
            whole.final == trimmed.final && whole.frames == r.frames + trimmed.frames
  {
    HeldReadsBack(s);
    ReadConcat(Idle, s, later);
    ReadConcat(Idle, Read(Idle, s).final.Held(), later);
  }

  lemma {:induction false} HeldReadsBack(s: Bytes)
    ensures Read(Idle, Read(Idle, s).final.Held()) == Reading(Read(Idle, s).final, [])
  {
    var _ := Conservation(s);
    var q := Read(Idle, s).final;
    if q.Open? {
      ReadTail(q.frame);
    }
  }
}

/**
 * The framer of node/src/json_framer.rs: a buffer that is rescanned from its first byte on every
 * `TakeFrame`, with the scan state in mutable fields, and trimmed afterwards.
 */
module JsonFraming {
  import opened Basics
  import opened JsonAutomaton

  datatype Taken = Taken(frame: Option<Bytes>, buffer: Bytes)

  /** One `take_frame` on a buffer, as a value: the first frame to close, or the trimmed buffer. */
  function FirstFrame(q: State, s: Bytes): Taken
    decreases |s|
  {
    if s == [] then Taken(None, q.Held())
    else
      var fed := Feed(q, s[0]);
      if fed.frame.Some? then Taken(fed.frame, s[1..]) else FirstFrame(fed.next, s[1..])
  }

  function Take(buffer: Bytes): Taken {
    FirstFrame(Idle, buffer)
  }

  class JsonFramer {
    var possibleStart: Option<nat>
    var possibleEnd: Option<nat>
    var dataSoFar: Bytes
    var braceNestCount: int
    var inSingleQuoteString: bool
    var inDoubleQuoteString: bool
    var afterBackslash: bool

    constructor ()
      ensures dataSoFar == []
    {
      possibleStart, possibleEnd, dataSoFar, braceNestCount := None, None, [], 0;
      inSingleQuoteString, inDoubleQuoteString, afterBackslash := false, false, false;
    }

    method AddData(data: Bytes)
      modifies this
      ensures dataSoFar == old(dataSoFar) + data
    {
      dataSoFar := dataSoFar + data;
    }

    /** The fields after scanning the first `i` buffered bytes agree with automaton state `q`. */
    ghost predicate Tracks(q: State, i: int)
      reads this
    {
      && 0 <= i <= |dataSoFar|
      && possibleEnd == None
      // The counter is an i32 in the source: it cannot overflow while the buffer stays below 2^31.
      && braceNestCount <= i
      && match q
         case Idle =>
           && possibleStart == None && braceNestCount == 0
           && !inSingleQuoteString && !inDoubleQuoteString && !afterBackslash
         case Open(frame, lex) =>
           && possibleStart.Some? && possibleStart.value <= i
           && frame == dataSoFar[possibleStart.value..i]
           && braceNestCount >= 1
           && lex == Lex(braceNestCount, inSingleQuoteString, inDoubleQuoteString, afterBackslash)
           && (afterBackslash ==> inSingleQuoteString || inDoubleQuoteString)
    }

    method Reset()
      modifies this
      ensures dataSoFar == old(dataSoFar)
      ensures Tracks(Idle, 0)
    {
      possibleStart, possibleEnd, braceNestCount := None, None, 0;
      inSingleQuoteString, inDoubleQuoteString, afterBackslash := false, false, false;
    }

    /**
     * Takes the first frame of the buffer, or trims the buffer to the frame being read. The last
     * match arm of the source, the panic "Internal error framing JSON", is unreachable.
     */
    method TakeFrame() returns (frame: Option<Bytes>)
      modifies this
      ensures Taken(frame, dataSoFar) == Take(old(dataSoFar))
    {
      Reset();
      ghost var q := Idle;
      for i := 0 to |dataSoFar|
        invariant dataSoFar == old(dataSoFar)
        invariant Tracks(q, i)
        invariant Take(dataSoFar) == FirstFrame(q, dataSoFar[i..])
      {
        ghost var fed := Feed(q, dataSoFar[i]);
        assert dataSoFar[i..][0] == dataSoFar[i] && dataSoFar[i..][1..] == dataSoFar[i + 1..];
        UpdateState(dataSoFar[i], i, q);
        frame := CheckDataChunk(i, fed);
        if frame.Some? {
          dataSoFar := dataSoFar[i + 1..];
          return;
        }
        q := fed.next;
      }
      assert possibleEnd == None;
      if possibleStart == None {
        dataSoFar := [];
      } else {
        dataSoFar := dataSoFar[possibleStart.value..];
        possibleStart := Some(0);
      }
      frame := None;
    }

    /** The fields between `UpdateState` and `CheckDataChunk`: a frame may just have ended at `i`. */
    ghost predicate Stepped(fed: Fed, i: int)
      reads this
    {
      && 0 <= i < |dataSoFar|
      && match fed.frame
         case None => Tracks(fed.next, i + 1)
         case Some(frame) =>
           && possibleStart.Some? && possibleEnd == Some(i + 1) && possibleStart.value <= i
           && frame == dataSoFar[possibleStart.value..i + 1]
    }

    method CheckDataChunk(ghost i: int, ghost fed: Fed) returns (chunk: Option<Bytes>)
      requires Stepped(fed, i)
      modifies this
      ensures dataSoFar == old(dataSoFar)
      ensures chunk == fed.frame
      ensures fed.frame == None ==> Tracks(fed.next, i + 1)
    {
      if possibleStart.Some? && possibleEnd.Some? {
        chunk := Some(dataSoFar[possibleStart.value..possibleEnd.value]);
        Reset();
      } else {
        chunk := None;
      }
    }

    method UpdateState(b: Byte, offset: nat, ghost q: State)
      requires Tracks(q, offset) && offset < |dataSoFar| && dataSoFar[offset] == b
      modifies this
      ensures dataSoFar == old(dataSoFar)
      ensures Stepped(Feed(q, b), offset)
    {
      assert q.Open? ==> dataSoFar[possibleStart.value..offset + 1]
                         == dataSoFar[possibleStart.value..offset] + [b];
      assert dataSoFar[offset..offset + 1] == [b];
      if afterBackslash {
        afterBackslash := false;
      } else {
        HandleQuotes(b);
        if !inSingleQuoteString && !inDoubleQuoteString {
          HandleBraces(b, offset);
        } else if possibleStart.Some? && b == BACKSLASH {
          afterBackslash := true;
        }
      }
    }

    method HandleQuotes(b: Byte)
      modifies this`inSingleQuoteString, this`inDoubleQuoteString
      ensures inSingleQuoteString == (old(inSingleQuoteString)
                != (possibleStart.Some? && b == SINGLE_QUOTE && !old(inDoubleQuoteString)))
      ensures inDoubleQuoteString == (old(inDoubleQuoteString)
                != (possibleStart.Some? && b == DOUBLE_QUOTE && !old(inSingleQuoteString)))
    {
      if possibleStart == None {
        return;
      }
      match (inSingleQuoteString, b == SINGLE_QUOTE, inDoubleQuoteString, b == DOUBLE_QUOTE)
      case (false, false, false, true) => inDoubleQuoteString := true;
      case (false, false, true, true) => inDoubleQuoteString := false;
      case (false, true, false, false) => inSingleQuoteString := true;
      case (true, true, false, false) => inSingleQuoteString := false;
      case _ =>
    }

    method HandleBraces(b: Byte, offset: nat)
      modifies this
      ensures dataSoFar == old(dataSoFar)
      ensures b == OPEN_BRACE && old(braceNestCount) == 0 ==>
                && braceNestCount == 1 && possibleStart == Some(offset) && possibleEnd == None
                && !inSingleQuoteString && !inDoubleQuoteString && !afterBackslash
      ensures !(b == OPEN_BRACE && old(braceNestCount) == 0) ==>
                && inSingleQuoteString == old(inSingleQuoteString)
                && inDoubleQuoteString == old(inDoubleQuoteString)
                && afterBackslash == old(afterBackslash)
      ensures b == OPEN_BRACE && old(braceNestCount) != 0 ==>
                && braceNestCount == old(braceNestCount) + 1
                && possibleStart == old(possibleStart) && possibleEnd == old(possibleEnd)
      ensures b == CLOSE_BRACE && old(braceNestCount) <= 0 ==>
                braceNestCount == 0 && possibleStart == None && possibleEnd == old(possibleEnd)
      ensures b == CLOSE_BRACE && old(braceNestCount) > 0 ==>
                && braceNestCount == old(braceNestCount) - 1 && possibleStart == old(possibleStart)
                && possibleEnd == if braceNestCount == 0 && possibleStart.Some? then Some(offset + 1)
                                  else old(possibleEnd)
      ensures b != OPEN_BRACE && b != CLOSE_BRACE ==>
                && braceNestCount == old(braceNestCount)
                && possibleStart == old(possibleStart) && possibleEnd == old(possibleEnd)
    {
      if b == OPEN_BRACE {
        braceNestCount := braceNestCount + 1;
        if braceNestCount == 1 {
          Reset();
          braceNestCount := 1;
          possibleStart := Some(offset);
        }
      } else if b == CLOSE_BRACE {
        braceNestCount := braceNestCount - 1;
        if braceNestCount < 0 {
          braceNestCount := 0;
          possibleStart := None;
        } else if braceNestCount == 0 && possibleStart.Some? {
          possibleEnd := Some(offset + 1);
        }
      }
    }
  }

  // Sessions: any interleaving of add_data and take_frame

  datatype Op = Add(data: Bytes) | TakeOne

  datatype Session = Session(buffer: Bytes, frames: seq<Bytes>)

  /** All bytes added by a list of operations, in order. */
  function Stream(ops: seq<Op>): Bytes {
    if ops == [] then []
    else Stream(ops[..|ops| - 1]) + (match ops[|ops| - 1] case Add(data) => data case TakeOne => [])
  }

  /** A fresh framer put through `ops`: its buffer, and the frames it has handed out. */
  function Play(ops: seq<Op>): Session {
    if ops == [] then Session([], [])
    else
      var s := Play(ops[..|ops| - 1]);
      match ops[|ops| - 1]
      case Add(data) => s.(buffer := s.buffer + data)
      case TakeOne =>
        var taken := Take(s.buffer);
        Session(taken.buffer, s.frames + (if taken.frame.Some? then [taken.frame.value] else []))
  }

  lemma {:induction false} FirstFrameReads(q: State, s: Bytes)
    ensures var taken := FirstFrame(q, s);
            match taken.frame
            case None => Read(q, s).frames == [] && taken.buffer == Read(q, s).final.Held()
            case Some(f) =>
              && |taken.buffer| < |s|
              && Read(q, s) == Reading(Read(Idle, taken.buffer).final, [f] + Read(Idle, taken.buffer).frames)
    decreases |s|
  {
    if s == [] {
    } else {
      var fed := Feed(q, s[0]);
      if fed.frame.None? {
        FirstFrameReads(fed.next, s[1..]);
      }
    }
  }

  /** What one `take_frame` does to the reading of its buffer. */
  lemma {:induction false} TakeReads(buffer: Bytes)
    ensures var taken := Take(buffer);
            match taken.frame
            case None =>
              && Read(Idle, buffer).frames == []
              && taken.buffer == Read(Idle, buffer).final.Held()
              && Read(Idle, taken.buffer) == Read(Idle, buffer)
            case Some(f) =>
              && |taken.buffer| < |buffer|
              && Read(Idle, buffer).final == Read(Idle, taken.buffer).final
              && Read(Idle, buffer).frames == [f] + Read(Idle, taken.buffer).frames
  {
    FirstFrameReads(Idle, buffer);
    TrimmingIsInvisible(buffer, []);
    assert buffer + [] == buffer;
    assert Read(Idle, buffer).final.Held() + [] == Read(Idle, buffer).final.Held();
  }

  /**
   * The frames handed out followed by those still in the buffer are the frames of the stream, and
   * the rescanned buffer leaves the automaton where the stream does.
   */
  ghost predicate Refines(s: Session, stream: Bytes) {
    && s.frames + Read(Idle, s.buffer).frames == Read(Idle, stream).frames
    && Read(Idle, s.buffer).final == Read(Idle, stream).final
  }

  lemma {:induction false} AddKeepsRefines(s: Session, stream: Bytes, data: Bytes)
    requires Refines(s, stream)
    ensures Refines(s.(buffer := s.buffer + data), stream + data)
  {
    hide Read;
    ReadConcat(Idle, stream, data);
    ReadConcat(Idle, s.buffer, data);
  }

  lemma {:induction false} TakeKeepsRefines(s: Session, stream: Bytes)
    requires Refines(s, stream)
    ensures var taken := Take(s.buffer);
            Refines(Session(taken.buffer, s.frames + (if taken.frame.Some? then [taken.frame.value] else [])), stream)
  {
    hide Read, Take;
    TakeReads(s.buffer);
  }

  /**
   * Fragmentation independence: this holds however the stream is cut and however the takes are
   * interleaved.
   */
  lemma {:induction false} SessionRefinesOnePass(ops: seq<Op>)
    ensures Refines(Play(ops), Stream(ops))
  {
    if ops == [] {
    } else {
      hide Refines, Take;
      var before := ops[..|ops| - 1];
      SessionRefinesOnePass(before);
      match ops[|ops| - 1]
      case Add(data) =>
        AddKeepsRefines(Play(before), Stream(before), data);
      case TakeOne =>
        assert Stream(ops) == Stream(before);
        TakeKeepsRefines(Play(before), Stream(before));
    }
  }

  /** A session whose last take found nothing has handed out every frame and keeps only the tail. */
  lemma {:induction false} DrainedSession(ops: seq<Op>)
    requires Take(Play(ops).buffer).frame == None
    ensures var s := Play(ops + [TakeOne]);
            && s.frames == Read(Idle, Stream(ops)).frames
            && s.buffer == Read(Idle, Stream(ops)).final.Held()
  {
    SessionRefinesOnePass(ops);
    TakeReads(Play(ops).buffer);
    assert (ops + [TakeOne])[..|ops|] == ops;
  }
}
