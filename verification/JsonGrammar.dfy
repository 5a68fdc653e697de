/**
 * What a frame is, said as a grammar: objects, quoted literals and other bytes, nested to any depth.
 * Nothing here mentions a scan, a counter or a flag; the frames of the automaton are exactly the
 * sentences of this grammar.
 */
module JsonGrammar {
  import opened Basics
  import opened JsonAutomaton
  import opened JsonFraming

  /** What stands between the quotes of a literal: bytes on their own, and bytes behind a backslash. */
  datatype Unit = Lone(b: Byte) | Escaped(b: Byte)

  /** What stands between the braces of an object. */
  datatype Text =
    | End
    | Other(b: Byte, rest: Text)
    | Literal(quote: Byte, units: seq<Unit>, rest: Text)
    | Object(inner: Text, rest: Text)

  predicate IsQuote(b: Byte) {
    b == SINGLE_QUOTE || b == DOUBLE_QUOTE
  }

  /** A literal ends at the first quote of its own kind that no backslash precedes. */
  predicate UnitFits(quote: Byte, u: Unit) {
    u.Lone? ==> u.b != quote && u.b != BACKSLASH
  }

  predicate WellFormed(t: Text) {
    match t
    case End => true
    case Other(b, rest) => b != OPEN_BRACE && b != CLOSE_BRACE && !IsQuote(b) && WellFormed(rest)
    case Literal(quote, units, rest) =>
      IsQuote(quote) && (forall i :: 0 <= i < |units| ==> UnitFits(quote, units[i])) && WellFormed(rest)
    case Object(inner, rest) => WellFormed(inner) && WellFormed(rest)
  }

  function UnitBytes(u: Unit): Bytes {
    if u.Lone? then [u.b] else [BACKSLASH, u.b]
  }

  function UnitsBytes(units: seq<Unit>): Bytes {
    FlatMap(UnitBytes, units)
  }

  function Render(t: Text): Bytes {
    match t
    case End => []
    case Other(b, rest) => [b] + Render(rest)
    case Literal(quote, units, rest) => [quote] + UnitsBytes(units) + [quote] + Render(rest)
    case Object(inner, rest) => [OPEN_BRACE] + Render(inner) + [CLOSE_BRACE] + Render(rest)
  }

  function Braced(t: Text): Bytes {
    [OPEN_BRACE] + Render(t) + [CLOSE_BRACE]
  }

  ghost predicate IsSentence(f: Bytes) {
    exists t :: WellFormed(t) && f == Braced(t)
  }

  // Every sentence is a frame

  function InObject(depth: int): Lex {
    Lex(depth, false, false, false)
  }

  function InLiteral(depth: int, quote: Byte, escaped: bool): Lex {
    Lex(depth, quote == SINGLE_QUOTE, quote == DOUBLE_QUOTE, escaped)
  }

  lemma {:induction false} ReadByte(held: Bytes, lex: Lex, b: Byte)
    requires LexStep(lex, b).depth > 0
    ensures Read(Open(held, lex), [b]) == Reading(Open(held + [b], LexStep(lex, b)), [])
  {
    assert [b][1..] == [];
  }

  /** One more byte after a reading that stayed inside the frame. */
  lemma {:induction false} ReadSnoc(held: Bytes, lex: Lex, s: Bytes, mid: Lex, b: Byte)
    requires Read(Open(held, lex), s) == Reading(Open(held + s, mid), []) && LexStep(mid, b).depth > 0
    ensures Read(Open(held, lex), s + [b]) == Reading(Open(held + (s + [b]), LexStep(mid, b)), [])
  {
    hide Read, LexStep;
    ReadByte(held + s, mid, b);
    ReadThen(Open(held, lex), s, Open(held + s, mid), [b], Read(Open(held + s, mid), [b]));
    assert held + s + [b] == held + (s + [b]);
  }

  /** Two texts in a row, both of which stay inside the frame. */
  lemma {:induction false} ReadBoth(held: Bytes, lex: Lex, s: Bytes, mid: Lex, t: Bytes, end: Lex)
    requires Read(Open(held, lex), s) == Reading(Open(held + s, mid), [])
    requires Read(Open(held + s, mid), t) == Reading(Open(held + s + t, end), [])
    ensures Read(Open(held, lex), s + t) == Reading(Open(held + (s + t), end), [])
  {
    hide Read;
    ReadThen(Open(held, lex), s, Open(held + s, mid), t, Reading(Open(held + s + t, end), []));
    assert held + s + t == held + (s + t);
  }

  lemma {:induction false} ReadUnit(held: Bytes, depth: int, quote: Byte, u: Unit)
    requires depth > 0 && IsQuote(quote) && UnitFits(quote, u)
    ensures Read(Open(held, InLiteral(depth, quote, false)), UnitBytes(u))
            == Reading(Open(held + UnitBytes(u), InLiteral(depth, quote, false)), [])
  {
    hide Read;
    var lex := InLiteral(depth, quote, false);
    if u.Lone? {
      ReadByte(held, lex, u.b);
    } else {
      ReadByte(held, lex, BACKSLASH);
      ReadSnoc(held, lex, [BACKSLASH], InLiteral(depth, quote, true), u.b);
      assert [BACKSLASH] + [u.b] == [BACKSLASH, u.b];
    }
  }

  lemma {:induction false} ReadUnits(held: Bytes, depth: int, quote: Byte, units: seq<Unit>)
    requires depth > 0 && IsQuote(quote) && forall i :: 0 <= i < |units| ==> UnitFits(quote, units[i])
    ensures Read(Open(held, InLiteral(depth, quote, false)), UnitsBytes(units))
            == Reading(Open(held + UnitsBytes(units), InLiteral(depth, quote, false)), [])
    decreases |units|
  {
    var lex := InLiteral(depth, quote, false);
    if units == [] {
      assert held + [] == held;
    } else {
      hide Read, InLiteral, UnitBytes, UnitFits;
      var first, rest := UnitBytes(units[0]), UnitsBytes(units[1..]);
      ReadUnit(held, depth, quote, units[0]);
      ReadUnits(held + first, depth, quote, units[1..]);
      ReadBoth(held, lex, first, lex, rest, lex);
    }
  }

  lemma {:induction false} ReadLiteralText(held: Bytes, depth: int, quote: Byte, units: seq<Unit>)
    requires depth > 0 && IsQuote(quote) && forall i :: 0 <= i < |units| ==> UnitFits(quote, units[i])
    ensures var s := [quote] + UnitsBytes(units) + [quote];
            Read(Open(held, InObject(depth)), s) == Reading(Open(held + s, InObject(depth)), [])
  {
    var lex, inside := InObject(depth), InLiteral(depth, quote, false);
    assert LexStep(lex, quote) == inside && LexStep(inside, quote) == lex;
    hide Read, LexStep, InLiteral, InObject, UnitsBytes;
    ReadByte(held, lex, quote);
    ReadUnits(held + [quote], depth, quote, units);
    ReadBoth(held, lex, [quote], inside, UnitsBytes(units), inside);
    ReadSnoc(held, lex, [quote] + UnitsBytes(units), inside, quote);
  }

  /** Whatever the text between braces holds, it leaves the reading at the depth where it began. */
  lemma {:induction false} ReadText(held: Bytes, depth: int, t: Text)
    requires depth > 0 && WellFormed(t)
    ensures Read(Open(held, InObject(depth)), Render(t)) == Reading(Open(held + Render(t), InObject(depth)), [])
    decreases t, 0
  {
    var lex := InObject(depth);
    match t
    case End =>
      assert held + [] == held;
    case Other(b, rest) =>
      assert LexStep(lex, b) == lex;
      hide Read, LexStep, InObject;
      ReadByte(held, lex, b);
      ReadText(held + [b], depth, rest);
      ReadBoth(held, lex, [b], lex, Render(rest), lex);
    case Literal(quote, units, rest) =>
      hide Read, LexStep, InObject, UnitsBytes;
      var s := [quote] + UnitsBytes(units) + [quote];
      ReadLiteralText(held, depth, quote, units);
      ReadText(held + s, depth, rest);
      ReadBoth(held, lex, s, lex, Render(rest), lex);
    case Object(inner, rest) =>
      hide Read, LexStep, InObject;
      ReadObject(held, depth, inner);
      ReadText(held + Braced(inner), depth, rest);
      ReadBoth(held, lex, Braced(inner), lex, Render(rest), lex);
  }

  lemma {:induction false} ReadObject(held: Bytes, depth: int, inner: Text)
    requires depth > 0 && WellFormed(inner)
    ensures Read(Open(held, InObject(depth)), Braced(inner))
            == Reading(Open(held + Braced(inner), InObject(depth)), [])
    decreases inner, 1
  {
    var lex, deeper := InObject(depth), InObject(depth + 1);
    assert LexStep(lex, OPEN_BRACE) == deeper && LexStep(deeper, CLOSE_BRACE) == lex;
    hide Read, LexStep, Render;
    ReadByte(held, lex, OPEN_BRACE);
    ReadText(held + [OPEN_BRACE], depth + 1, inner);
    ReadBoth(held, lex, [OPEN_BRACE], deeper, Render(inner), deeper);
    ReadSnoc(held, lex, [OPEN_BRACE] + Render(inner), deeper, CLOSE_BRACE);
  }

  /** A sentence is one frame: it is read whole, however deep its braces nest and whatever its literals hold. */
  lemma {:induction false} SentenceIsFrame(t: Text)
    requires WellFormed(t)
    ensures IsFrame(Braced(t))
  {
    var s := [OPEN_BRACE] + Render(t);
    var q := Open(s, InObject(1));
    assert LexStep(OUTSIDE, OPEN_BRACE) == InObject(1) && LexStep(InObject(1), CLOSE_BRACE).depth == 0;
    assert Feed(q, CLOSE_BRACE) == Fed(Idle, Some(Braced(t)));
    assert Read(Idle, [OPEN_BRACE]) == Reading(Open([OPEN_BRACE], InObject(1)), []) by {
      assert [OPEN_BRACE][1..] == [];
    }
    assert Read(q, [CLOSE_BRACE]) == Reading(Idle, [Braced(t)]) by {
      assert [CLOSE_BRACE][1..] == [];
    }
    hide Read, LexStep, Feed, Render, IsFrame;
    ReadText([OPEN_BRACE], 1, t);
    ReadThen(Idle, [OPEN_BRACE], Open([OPEN_BRACE], InObject(1)), Render(t), Reading(q, []));
    ReadThen(Idle, s, q, [CLOSE_BRACE], Reading(Idle, [Braced(t)]));
    var gaps := Conservation(Braced(t));
    assert IsFrame(Read(Idle, Braced(t)).frames[0]);
  }

  // Every frame is a sentence

  function Append(a: Text, b: Text): Text {
    match a
    case End => b
    case Other(x, rest) => Other(x, Append(rest, b))
    case Literal(quote, units, rest) => Literal(quote, units, Append(rest, b))
    case Object(inner, rest) => Object(inner, Append(rest, b))
  }

  lemma {:induction false} AppendRenders(a: Text, b: Text)
    ensures Render(Append(a, b)) == Render(a) + Render(b)
    ensures WellFormed(a) && WellFormed(b) ==> WellFormed(Append(a, b))
  {
    hide UnitsBytes, UnitFits;
    match a
    case End =>
      assert [] + Render(b) == Render(b);
    case Other(_, rest) => AppendRenders(rest, b);
    case Literal(quote, units, rest) =>
      AppendRenders(rest, b);
      hide WellFormed;
      var s := [quote] + UnitsBytes(units) + [quote];
      assert s + (Render(rest) + Render(b)) == s + Render(rest) + Render(b);
    case Object(_, rest) => AppendRenders(rest, b);
  }

  /** The end of an unfinished frame: between items, in a literal, or behind a backslash in one. */
  datatype Place = Between | Quoted(quote: Byte, units: seq<Unit>) | Behind(quote: Byte, units: seq<Unit>)

  /** An unfinished frame: the texts of the objects that are open, outermost first, and the place reached. */
  datatype Partial = Partial(open: seq<Text>, place: Place) {

    ghost predicate Valid() {
      && open != [] && (forall i :: 0 <= i < |open| ==> WellFormed(open[i]))
      && (!place.Between? ==>
            IsQuote(place.quote) && forall i :: 0 <= i < |place.units| ==> UnitFits(place.quote, place.units[i]))
    }

    ghost function Bytes(): Bytes {
      RenderOpen(open) + PlaceBytes(place)
    }

    ghost function Lex(): Lex {
      match place
      case Between => InObject(|open|)
      case Quoted(quote, _) => InLiteral(|open|, quote, false)
      case Behind(quote, _) => InLiteral(|open|, quote, true)
    }
  }

  ghost function RenderOpen(open: seq<Text>): Bytes {
    if open == [] then []
    else RenderOpen(open[..|open| - 1]) + ([OPEN_BRACE] + Render(open[|open| - 1]))
  }

  ghost function PlaceBytes(place: Place): Bytes {
    match place
    case Between => []
    case Quoted(quote, units) => [quote] + UnitsBytes(units)
    case Behind(quote, units) => [quote] + UnitsBytes(units) + [BACKSLASH]
  }

  /** The item is added to the innermost open object. */
  lemma {:induction false} AddItem(open: seq<Text>, item: Text) returns (open': seq<Text>)
    requires Partial(open, Between).Valid() && WellFormed(item)
    ensures Partial(open', Between).Valid() && |open'| == |open|
    ensures RenderOpen(open') == RenderOpen(open) + Render(item)
  {
    hide Render, WellFormed, Append;
    var n := |open| - 1;
    var top := Append(open[n], item);
    AppendRenders(open[n], item);
    open' := open[..n] + [top];
    OpenSnoc(open[..n], top);
    OpenSnoc(open[..n], open[n]);
    assert open[..n] + [open[n]] == open;
    hide RenderOpen;
    var front := RenderOpen(open[..n]);
    assert front + ([OPEN_BRACE] + (Render(open[n]) + Render(item))) == front + ([OPEN_BRACE] + Render(open[n])) + Render(item);
  }

  lemma {:induction false} OpenSnoc(open: seq<Text>, t: Text)
    ensures RenderOpen(open + [t]) == RenderOpen(open) + ([OPEN_BRACE] + Render(t))
  {
    hide Render;
    assert (open + [t])[..|open|] == open;
  }

  lemma {:induction false} UnitsSnoc(units: seq<Unit>, u: Unit)
    ensures UnitsBytes(units + [u]) == UnitsBytes(units) + UnitBytes(u)
  {
    hide UnitBytes;
    FlatMapConcat(UnitBytes, units, [u]);
    assert [u][1..] == [] && UnitBytes(u) + [] == UnitBytes(u);
  }

  /** One more byte inside a literal. */
  lemma {:induction false} StepInLiteral(p: Partial, b: Byte) returns (p': Partial)
    requires p.Valid() && !p.place.Between?
    ensures p'.Valid() && p'.Bytes() == p.Bytes() + [b] && p'.Lex() == LexStep(p.Lex(), b)
  {
    var quote, units := p.place.quote, p.place.units;
    if p.place.Behind? {
      UnitsSnoc(units, Escaped(b));
      p' := p.(place := Quoted(quote, units + [Escaped(b)]));
      assert UnitsBytes(units) + [BACKSLASH, b] == UnitsBytes(units) + [BACKSLASH] + [b];
    } else if b == BACKSLASH {
      p' := p.(place := Behind(quote, units));
    } else if b == quote {
      var literal := Literal(quote, units, End);
      var open := AddItem(p.open, literal);
      p' := Partial(open, Between);
      LiteralBytes(quote, units);
      assert RenderOpen(open) + [] == RenderOpen(open);
    } else {
      UnitsSnoc(units, Lone(b));
      p' := p.(place := Quoted(quote, units + [Lone(b)]));
    }
  }

  lemma {:induction false} LiteralBytes(quote: Byte, units: seq<Unit>)
    ensures Render(Literal(quote, units, End)) == [quote] + UnitsBytes(units) + [quote]
  {
    assert Render(End) == [];
  }

  /** One more byte between items, unless it closes the frame. */
  lemma {:induction false} StepBetween(p: Partial, b: Byte) returns (p': Partial)
    requires p.Valid() && p.place.Between? && !(b == CLOSE_BRACE && |p.open| == 1)
    ensures p'.Valid() && p'.Bytes() == p.Bytes() + [b] && p'.Lex() == LexStep(p.Lex(), b)
  {
    hide RenderOpen, Render, UnitsBytes, WellFormed;
    EmptyTexts(b);
    assert RenderOpen(p.open) + [] == RenderOpen(p.open);
    if IsQuote(b) {
      p' := p.(place := Quoted(b, []));
      assert PlaceBytes(p'.place) == [b];
    } else if b == OPEN_BRACE {
      p' := p.(open := p.open + [End]);
      OpenSnoc(p.open, End);
      assert RenderOpen(p'.open) + [] == RenderOpen(p.open) + [b];
    } else if b == CLOSE_BRACE {
      p' := CloseInner(p.open);
    } else {
      var open := AddItem(p.open, Other(b, End));
      p' := Partial(open, Between);
      assert RenderOpen(open) + [] == RenderOpen(open);
    }
  }

  lemma {:induction false} EmptyTexts(b: Byte)
    ensures Render(End) == [] && WellFormed(End) && UnitsBytes([]) == [] && Render(Other(b, End)) == [b]
    ensures b != OPEN_BRACE && b != CLOSE_BRACE && !IsQuote(b) ==> WellFormed(Other(b, End))
  {
    assert Render(Other(b, End)) == [b] + Render(End);
  }

  lemma {:induction false} CloseInner(open: seq<Text>) returns (p: Partial)
    requires Partial(open, Between).Valid() && |open| > 1
    ensures p.Valid() && p.place == Between && |p.open| == |open| - 1
    ensures p.Bytes() == RenderOpen(open) + [CLOSE_BRACE]
  {
    var n := |open| - 1;
    var outer := open[..n];
    var open' := AddItem(outer, Object(open[n], End));
    p := Partial(open', Between);
    ObjectBytes(open[n]);
    hide Render, WellFormed;
    assert RenderOpen(outer) + ([OPEN_BRACE] + Render(open[n]) + [CLOSE_BRACE]) == RenderOpen(open) + [CLOSE_BRACE];
    assert RenderOpen(open') + [] == RenderOpen(open');
  }

  lemma {:induction false} ObjectBytes(inner: Text)
    ensures Render(Object(inner, End)) == [OPEN_BRACE] + Render(inner) + [CLOSE_BRACE]
  {
    assert Render(End) == [];
  }

  /** An unfinished frame parses. */
  lemma {:induction false} ParseTail(s: Bytes) returns (p: Partial)
    requires s != [] && IsTail(s)
    ensures p.Valid() && p.Bytes() == s && p.Lex() == LexOf(s)
  {
    var n := |s| - 1;
    var b := s[n];
    assert s == s[..n] + [b] && s[..|s|] == s;
    if n == 0 {
      p := Partial([End], Between);
      assert s == [OPEN_BRACE] && s[..0] == [];
      assert [End][..0] == [] && Render(End) == [];
      assert RenderOpen([End]) == RenderOpen([]) + ([OPEN_BRACE] + []);
    } else {
      hide RenderOpen, PlaceBytes, LexStep;
      TailPrefix(s, n);
      var before := ParseTail(s[..n]);
      assert LexOf(s) == LexStep(before.Lex(), b);
      if !before.place.Between? {
        p := StepInLiteral(before, b);
      } else {
        ClosingDepth(|before.open|);
        p := StepBetween(before, b);
      }
    }
  }

  lemma ClosingDepth(depth: int)
    ensures LexStep(InObject(depth), CLOSE_BRACE) == InObject(depth - 1)
  {
  }

  lemma {:induction false} TailPrefix(s: Bytes, n: nat)
    requires IsTail(s) && 0 < n <= |s|
    ensures IsTail(s[..n])
  {
    hide LexOf;
    forall k | 0 < k <= n ensures LexOf(s[..n][..k]).depth > 0 {
      assert s[..n][..k] == s[..k];
    }
  }

  lemma {:induction false} FrameIsSentence(f: Bytes)
    requires IsFrame(f)
    ensures IsSentence(f)
  {
    var n := |f| - 1;
    FrameFront(f);
    assert f[..n] != [] && IsTail(f[..n]) && f == f[..n] + [f[n]];
    var p := ParseTail(f[..n]);
    assert LexOf(f) == LexStep(p.Lex(), f[n]);
    assert |p.open| == 1 && p.place.Between? && f[n] == CLOSE_BRACE;
    OneOpen(p.open[0]);
    assert p.open == [p.open[0]] && p.Bytes() == RenderOpen(p.open);
    assert f == Braced(p.open[0]);
  }

  lemma {:induction false} OneOpen(t: Text)
    ensures RenderOpen([t]) == [OPEN_BRACE] + Render(t)
  {
    assert [t][..0] == [] && RenderOpen([]) == [];
  }

  lemma {:induction false} FrameFront(f: Bytes)
    requires IsFrame(f)
    ensures |f| > 1 && IsTail(f[..|f| - 1])
  {
    var n := |f| - 1;
    assert |f| == 1 ==> f == [OPEN_BRACE];
    assert LexOf([OPEN_BRACE]).depth == 1 by {
      assert [OPEN_BRACE][..0] == [];
    }
    hide LexOf;
    forall k | 0 < k <= n ensures LexOf(f[..n][..k]).depth > 0 {
      assert f[..n][..k] == f[..k];
    }
  }

  /** The frames that the framer hands out are the sentences of the grammar, no more and no less. */
  lemma {:induction false} FrameMeans(f: Bytes)
    ensures IsFrame(f) <==> IsSentence(f)
  {
    hide IsFrame;
    if IsFrame(f) {
      FrameIsSentence(f);
    }
    if t :| WellFormed(t) && f == Braced(t) {
      SentenceIsFrame(t);
    }
  }

  /** What is kept for later is what begins with a brace and has no sentence in front. */
  lemma {:induction false} TailMeans(s: Bytes)
    requires s != []
    ensures IsTail(s) <==> s[0] == OPEN_BRACE && forall k :: 0 < k <= |s| ==> !IsSentence(s[..k])
  {
    hide IsSentence, LexOf;
    if IsTail(s) {
      forall k | 0 < k <= |s| ensures !IsSentence(s[..k]) {
        FrameMeans(s[..k]);
        assert LexOf(s[..k]).depth > 0;
      }
    } else if s[0] == OPEN_BRACE {
      var k := FirstBalanced(s);
      FrameMeans(s[..k]);
    }
  }

  lemma {:induction false} FirstBalanced(s: Bytes) returns (k: nat)
    requires s != [] && s[0] == OPEN_BRACE && !IsTail(s)
    ensures 0 < k <= |s| && IsFrame(s[..k])
  {
    hide LexOf;
    k := 1;
    while LexOf(s[..k]).depth > 0
      invariant 0 < k <= |s| && UnclosedBelow(s, k)
      decreases |s| - k
    {
      assert UnclosedBelow(s, k + 1);
      k := k + 1;
    }
    BalancedIsFrame(s, k);
  }

  lemma {:induction false} BalancedIsFrame(s: Bytes, k: nat)
    requires 0 < k <= |s| && s[0] == OPEN_BRACE && UnclosedBelow(s, k) && LexOf(s[..k]).depth <= 0
    ensures IsFrame(s[..k])
  {
    hide LexOf;
    forall j | 0 < j < k ensures LexOf(s[..k][..j]).depth > 0 {
      assert s[..k][..j] == s[..j];
    }
    assert s[..k] == s[..k - 1] + [s[k - 1]];
    DepthNeverJumps(s[..k - 1], s[k - 1]);
    OutsideDepth();
    assert s[..1] == [OPEN_BRACE];
  }

  lemma OutsideDepth()
    ensures LexOf([]).depth == 0 && LexOf([OPEN_BRACE]).depth == 1
  {
    assert [OPEN_BRACE][..0] == [];
  }

  /** Reading that ends its only frame with its last byte makes the take stop there. */
  lemma {:induction false} TakeFront(q: State, f: Bytes, out: Bytes, rest: Bytes)
    requires f != [] && Read(q, f).frames == [out] && Read(q, f[..|f| - 1]).frames == []
    ensures FirstFrame(q, f + rest) == Taken(Some(out), rest)
    decreases |f|
  {
    var fed := Feed(q, f[0]);
    assert (f + rest)[1..] == f[1..] + rest;
    if |f| == 1 {
      assert f[1..] == [] && Read(fed.next, []).frames == [] && f[1..] + rest == rest;
      var frames := if fed.frame.Some? then [fed.frame.value] else [];
      assert Read(q, f).frames == frames + [] == frames;
      assert frames[0] == out;
    } else {
      var init := f[..|f| - 1];
      assert init[0] == f[0] && init[1..] == f[1..][..|f| - 2];
      hide Feed;
      TakeFront(fed.next, f[1..], out, rest);
    }
  }

  /** `take_frame` on a buffer that begins with a sentence takes the sentence and leaves the rest. */
  lemma {:induction false} TakeSentence(t: Text, rest: Bytes)
    requires WellFormed(t)
    ensures Take(Braced(t) + rest) == Taken(Some(Braced(t)), rest)
  {
    var f := Braced(t);
    SentenceIsFrame(t);
    hide Braced, LexOf, Read;
    ReadFrame(f);
    FrameFront(f);
    ReadTail(f[..|f| - 1]);
    TakeFront(Idle, f, f, rest);
  }

  // Nesting

  /** Bytes that mean nothing to the framer. */
  ghost predicate Plain(s: Bytes) {
    forall i :: 0 <= i < |s| ==> s[i] != OPEN_BRACE && s[i] != CLOSE_BRACE && !IsQuote(s[i])
  }

  function Others(s: Bytes, rest: Text): Text {
    if s == [] then rest else Other(s[0], Others(s[1..], rest))
  }

  lemma {:induction false} OthersRender(s: Bytes, rest: Text)
    requires Plain(s) && WellFormed(rest)
    ensures WellFormed(Others(s, rest)) && Render(Others(s, rest)) == s + Render(rest)
  {
    if s == [] {
      assert [] + Render(rest) == Render(rest);
    } else {
      OthersRender(s[1..], rest);
    }
  }

  /** A frame inside braces is inside one larger frame: inner braces are counted. */
  lemma {:induction false} TakeNested(before: Bytes, f: Bytes, after: Bytes, rest: Bytes)
    requires Plain(before) && IsFrame(f) && Plain(after)
    ensures var whole := [OPEN_BRACE] + before + f + after + [CLOSE_BRACE];
            Take(whole + rest) == Taken(Some(whole), rest)
  {
    FrameMeans(f);
    var t :| WellFormed(t) && f == Braced(t);
    var all := Others(before, Object(t, Others(after, End)));
    hide Take, IsFrame, WellFormed, Render;
    NestedText(before, t, after);
    assert [OPEN_BRACE] + (before + (f + after)) + [CLOSE_BRACE] == [OPEN_BRACE] + before + f + after + [CLOSE_BRACE];
    TakeSentence(all, rest);
  }

  lemma {:induction false} NestedText(before: Bytes, t: Text, after: Bytes)
    requires Plain(before) && WellFormed(t) && Plain(after)
    ensures var all := Others(before, Object(t, Others(after, End)));
            WellFormed(all) && Render(all) == before + (Braced(t) + after)
  {
    var tail := Others(after, End);
    OthersRender(after, End);
    assert Render(End) == [] && after + [] == after;
    OthersRender(before, Object(t, tail));
  }

  /** "{{}}" */
  lemma {:induction false} TakeTwoBraces(rest: Bytes)
    ensures var whole := [OPEN_BRACE, OPEN_BRACE, CLOSE_BRACE, CLOSE_BRACE];
            Take(whole + rest) == Taken(Some(whole), rest)
  {
    assert Render(Object(End, End)) == [OPEN_BRACE, CLOSE_BRACE] && WellFormed(Object(End, End));
    hide Take;
    assert Braced(Object(End, End)) == [OPEN_BRACE, OPEN_BRACE, CLOSE_BRACE, CLOSE_BRACE];
    TakeSentence(Object(End, End), rest);
  }
}
