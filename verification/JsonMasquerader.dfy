/** JSON string literals (section 7 of RFC 8259) as the node's serialiser prints and reads them. */
module JsonText {
  import opened Basics
  import opened JsonAutomaton
  import Utf8

  function HexDigit(v: int): Byte
    requires 0 <= v < 16
  {
    if v < 10 then 48 + v else 87 + v
  }

  function HexValue(b: Byte): (r: Option<int>)
    ensures r.Some? ==> 0 <= r.value < 16
  {
    if 48 <= b <= 57 then Some(b - 48)
    else if 65 <= b <= 70 then Some(b - 55)
    else if 97 <= b <= 102 then Some(b - 87)
    else None
  }

  function EscapeByte(b: Byte): Bytes {
    if b == DOUBLE_QUOTE || b == BACKSLASH then [BACKSLASH, b]
    else if b == 8 then [BACKSLASH, 98]
    else if b == 9 then [BACKSLASH, 116]
    else if b == 10 then [BACKSLASH, 110]
    else if b == 12 then [BACKSLASH, 102]
    else if b == 13 then [BACKSLASH, 114]
    else if b < 32 then [BACKSLASH, 117, 48, 48, HexDigit(b / 16), HexDigit(b % 16)]
    else [b]
  }

  function Escape(s: Bytes): Bytes {
    FlatMap(EscapeByte, s)
  }

  function Quote(s: Bytes): Bytes {
    [DOUBLE_QUOTE] + Escape(s) + [DOUBLE_QUOTE]
  }

  function Hex4(s: Bytes): (r: Option<int>)
    ensures r.Some? ==> |s| >= 4 && 0 <= r.value < 0x10000
  {
    if |s| < 4 then None
    else
      match (HexValue(s[0]), HexValue(s[1]), HexValue(s[2]), HexValue(s[3]))
      case (Some(a), Some(b), Some(c), Some(d)) => Some(((a * 16 + b) * 16 + c) * 16 + d)
      case _ => None
  }

  /** Decodes the escape after a backslash; the result is the bytes it stands for and the rest. */
  function Unescape(s: Bytes): (r: Option<(Bytes, Bytes)>)
    ensures r.Some? ==> |r.value.1| < |s|
  {
    if s == [] then None
    else if s[0] == DOUBLE_QUOTE || s[0] == BACKSLASH || s[0] == 47 then Some(([s[0]], s[1..]))
    else if s[0] == 98 then Some(([8], s[1..]))
    else if s[0] == 102 then Some(([12], s[1..]))
    else if s[0] == 110 then Some(([10], s[1..]))
    else if s[0] == 114 then Some(([13], s[1..]))
    else if s[0] == 116 then Some(([9], s[1..]))
    else if s[0] == 117 then UnescapeUnicode(s[1..])
    else None
  }

  /** Four hexadecimal digits, or a surrogate pair; a lone surrogate is an error. */
  function UnescapeUnicode(s: Bytes): (r: Option<(Bytes, Bytes)>)
    ensures r.Some? ==> |r.value.1| < |s|
  {
    var high := Hex4(s);
    if high.None? || 0xDC00 <= high.value < 0xE000 then None
    else if !(0xD800 <= high.value < 0xDC00) then Some((Utf8.Encode(high.value), s[4..]))
    else if |s| < 10 || s[4] != BACKSLASH || s[5] != 117 then None
    else
      var low := Hex4(s[6..]);
      if low.None? || !(0xDC00 <= low.value < 0xE000) then None
      else Some((Utf8.Encode(0x10000 + (high.value - 0xD800) * 0x400 + (low.value - 0xDC00)), s[10..]))
  }

  /** Reads a string literal whose opening quote has been consumed. */
  function ReadLiteral(s: Bytes): (r: Option<(Bytes, Bytes)>)
    ensures r.Some? ==> |r.value.1| < |s|
    decreases |s|
  {
    if s == [] || (s[0] < 32) then None
    else if s[0] == DOUBLE_QUOTE then Some(([], s[1..]))
    else
      var first := if s[0] == BACKSLASH then Unescape(s[1..]) else Some(([s[0]], s[1..]));
      if first.None? then None
      else
        var rest := ReadLiteral(first.value.1);
        if rest.None? then None else Some((first.value.0 + rest.value.0, rest.value.1))
  }

  lemma UnescapeEscapeByte(b: Byte, rest: Bytes)
    requires b < 32 || b == DOUBLE_QUOTE || b == BACKSLASH
    ensures EscapeByte(b)[0] == BACKSLASH
    ensures Unescape(EscapeByte(b)[1..] + rest) == Some(([b], rest))
  {
    var t := EscapeByte(b)[1..] + rest;
    if |EscapeByte(b)| == 2 {
      assert t[1..] == rest;
    } else {
      assert t[1..] == [48, 48, HexDigit(b / 16), HexDigit(b % 16)] + rest;
      assert t[1..][4..] == rest;
      assert Hex4(t[1..]) == Some(b);
    }
  }

  lemma {:induction false} ReadLiteralQuote(s: Bytes, rest: Bytes)
    ensures ReadLiteral(Escape(s) + [DOUBLE_QUOTE] + rest) == Some((s, rest))
  {
    if s == [] {
      assert ([DOUBLE_QUOTE] + rest)[1..] == rest;
      assert Escape(s) + [DOUBLE_QUOTE] + rest == [DOUBLE_QUOTE] + rest;
    } else {
      var more := Escape(s[1..]) + ([DOUBLE_QUOTE] + rest);
      hide ReadLiteral, Escape;
      assert more == Escape(s[1..]) + [DOUBLE_QUOTE] + rest;
      assert Escape(s) + [DOUBLE_QUOTE] + rest == Escape(s) + ([DOUBLE_QUOTE] + rest);
      ReadLiteralQuote(s[1..], rest);
      ReadEscapedFront(s[0], more);
      EscapeFront(s, [DOUBLE_QUOTE] + rest);
      assert [s[0]] + s[1..] == s;
    }
  }

  lemma {:induction false} EscapeFront(s: Bytes, rest: Bytes)
    requires s != []
    ensures Escape(s) + rest == EscapeByte(s[0]) + (Escape(s[1..]) + rest)
  {
    hide EscapeByte;
  }

  lemma {:induction false} ReadEscapedFront(b: Byte, more: Bytes)
    requires ReadLiteral(more).Some?
    ensures ReadLiteral(EscapeByte(b) + more)
            == Some(([b] + ReadLiteral(more).value.0, ReadLiteral(more).value.1))
  {
    var text := EscapeByte(b) + more;
    assert text[1..] == EscapeByte(b)[1..] + more;
    if b < 32 || b == DOUBLE_QUOTE || b == BACKSLASH {
      UnescapeEscapeByte(b, more);
    } else {
      assert EscapeByte(b) == [b] && text[1..] == more;
    }
  }

  lemma {:induction false} EscapeKeepsHighBytes(s: Bytes)
    requires forall i :: 0 <= i < |s| ==> s[i] >= 0x80
    ensures Escape(s) == s
  {
    if s == [] {
    } else {
      EscapeKeepsHighBytes(s[1..]);
      assert EscapeByte(s[0]) == [s[0]];
    }
  }

  /** Escaping a UTF-8 string gives a UTF-8 string. */
  lemma {:induction false} EscapeIsUtf8(s: Bytes)
    requires Utf8.Valid(s)
    ensures Utf8.Valid(Escape(s))
  {
    if s == [] {
    } else {
      hide FlatMap, EscapeByte;
      var n := Utf8.CharLen(s);
      EscapeIsUtf8(s[n..]);
      FlatMapConcat(EscapeByte, s[..n], s[n..]);
      assert s == s[..n] + s[n..];
      EscapeCharIsUtf8(s);
      Utf8.ConcatIsValid(Escape(s[..n]), Escape(s[n..]));
    }
  }

  lemma {:induction false} EscapeCharIsUtf8(s: Bytes)
    requires Utf8.CharLen(s) > 0
    ensures Utf8.Valid(Escape(s[..Utf8.CharLen(s)]))
  {
    var c := s[..Utf8.CharLen(s)];
    if |c| == 1 {
      assert Escape(c) == EscapeByte(c[0]) + Escape(c[1..]) == EscapeByte(c[0]);
      Utf8.AsciiIsValid(EscapeByte(c[0]));
    } else {
      EscapeKeepsHighBytes(c);
      Utf8.CharIsValid(s);
    }
  }

  lemma QuoteIsUtf8(s: Bytes)
    requires Utf8.Valid(s)
    ensures Utf8.Valid(Quote(s))
  {
    EscapeIsUtf8(s);
    Utf8.AsciiIsValid([DOUBLE_QUOTE]);
    Utf8.ConcatIsValid([DOUBLE_QUOTE], Escape(s));
    Utf8.ConcatIsValid([DOUBLE_QUOTE] + Escape(s), [DOUBLE_QUOTE]);
  }

  // What the framer's automaton makes of a literal inside a frame

  const IN_STRING := Lex(1, false, true, false)
  const IN_OBJECT := Lex(1, false, false, false)

  lemma {:induction false} ReadEscaped(held: Bytes, s: Bytes)
    ensures Read(Open(held, IN_STRING), Escape(s)) == Reading(Open(held + Escape(s), IN_STRING), [])
    decreases |s|
  {
    if s == [] {
      assert held + [] == held;
    } else {
      hide Read, EscapeByte;
      var e, more := EscapeByte(s[0]), Escape(s[1..]);
      assert Escape(s) == e + more && held + (e + more) == held + e + more;
      ReadEscapedByte(held, s[0]);
      ReadEscaped(held + e, s[1..]);
      ReadThen(Open(held, IN_STRING), e, Open(held + e, IN_STRING), more,
               Reading(Open(held + e + more, IN_STRING), []));
    }
  }

  lemma {:induction false} ReadEscapedByte(held: Bytes, b: Byte)
    ensures Read(Open(held, IN_STRING), EscapeByte(b)) == Reading(Open(held + EscapeByte(b), IN_STRING), [])
  {
    hide Read, Feed;
    var q := Open(held, IN_STRING);
    var e := EscapeByte(b);
    if |e| == 1 {
      ReadPlain(q, e);
    } else {
      ReadBackslashed(held, e[1]);
      var q2 := Open(held + [BACKSLASH, e[1]], IN_STRING);
      assert e == [BACKSLASH, e[1]] + e[2..];
      assert |e| == 2 || e[2..] == [48, 48, HexDigit(b / 16), HexDigit(b % 16)];
      ReadPlain(q2, e[2..]);
      ReadThen(q, [BACKSLASH, e[1]], q2, e[2..], Reading(Open(q2.frame + e[2..], IN_STRING), []));
      assert held + e == q2.frame + e[2..];
    }
  }

  lemma {:induction false} ReadBackslashed(held: Bytes, b: Byte)
    ensures Read(Open(held, IN_STRING), [BACKSLASH, b]) == Reading(Open(held + [BACKSLASH, b], IN_STRING), [])
  {
    var q := Open(held, IN_STRING);
    var q1 := Open(held + [BACKSLASH], Lex(1, false, true, true));
    ReadOne(q, BACKSLASH);
    ReadOne(q1, b);
    assert q1.frame + [b] == held + [BACKSLASH, b];
    assert [BACKSLASH] + [b] == [BACKSLASH, b];
    ReadThen(q, [BACKSLASH], q1, [b], Reading(Open(held + [BACKSLASH, b], IN_STRING), []));
  }

  lemma ReadOne(q: State, b: Byte)
    ensures Read(q, [b]) == Reading(Feed(q, b).next, if Feed(q, b).frame.Some? then [Feed(q, b).frame.value] else [])
  {
    assert [b][1..] == [];
  }

  lemma {:induction false} ReadPlain(q: State, s: Bytes)
    requires q.Open? && q.lex == IN_STRING
    requires forall i :: 0 <= i < |s| ==> s[i] != DOUBLE_QUOTE && s[i] != BACKSLASH
    ensures Read(q, s) == Reading(Open(q.frame + s, IN_STRING), [])
    decreases |s|
  {
    if s == [] {
      assert q.frame + s == q.frame;
    } else {
      ReadPlain(Open(q.frame + [s[0]], IN_STRING), s[1..]);
      assert q.frame + [s[0]] + s[1..] == q.frame + s;
    }
  }

  lemma {:induction false} ReadQuoteMark(q: State)
    requires q.Open? && (q.lex == IN_OBJECT || q.lex == IN_STRING)
    ensures Read(q, [DOUBLE_QUOTE])
            == Reading(Open(q.frame + [DOUBLE_QUOTE], if q.lex == IN_OBJECT then IN_STRING else IN_OBJECT), [])
  {
    ReadOne(q, DOUBLE_QUOTE);
  }

  lemma {:induction false} ReadQuote(held: Bytes, s: Bytes)
    ensures Read(Open(held, IN_OBJECT), Quote(s)) == Reading(Open(held + Quote(s), IN_OBJECT), [])
  {
    hide FlatMap, Read, Feed;
    var e := Escape(s);
    var q := Open(held, IN_OBJECT);
    var q1 := Open(held + [DOUBLE_QUOTE], IN_STRING);
    var q2 := Open(q1.frame + e, IN_STRING);
    var q3 := Open(q2.frame + [DOUBLE_QUOTE], IN_OBJECT);
    assert Read(q, [DOUBLE_QUOTE] + e) == Reading(q2, []) by {
      ReadQuoteMark(q);
      ReadEscaped(q1.frame, s);
      ReadThen(q, [DOUBLE_QUOTE], q1, e, Reading(q2, []));
    }
    assert Read(q, [DOUBLE_QUOTE] + e + [DOUBLE_QUOTE]) == Reading(q3, []) by {
      ReadQuoteMark(q2);
      ReadThen(q, [DOUBLE_QUOTE] + e, q2, [DOUBLE_QUOTE], Reading(q3, []));
    }
    assert q3.frame == held + ([DOUBLE_QUOTE] + e + [DOUBLE_QUOTE]);
  }
}

/** The masquerader of node/src/json_masquerader.rs. */
module JsonMasquerading {
  import opened Basics
  import opened JsonAutomaton
  import opened JsonText
  import Base64
  import Utf8

  datatype UnmaskedChunk = UnmaskedChunk(chunk: Bytes, lastChunk: bool, sequenced: bool)

  datatype MasqueradeError = NotThisMasquerader | LowLevelDataError | MidLevelDataError | HighLevelDataError

  /** "bodyText" */
  const BODY_TEXT: Bytes := [98, 111, 100, 121, 84, 101, 120, 116]
  /** "bodyData" */
  const BODY_DATA: Bytes := [98, 111, 100, 121, 68, 97, 116, 97]
  /** "null" */
  const NULL: Bytes := [110, 117, 108, 108]
  /** "true" */
  const TRUE: Bytes := [116, 114, 117, 101]
  /** "false" */
  const FALSE: Bytes := [102, 97, 108, 115, 101]
  const OPEN_BRACKET: Byte := 91
  const CLOSE_BRACKET: Byte := 93
  const COLON: Byte := 58
  const COMMA: Byte := 44

  /** The serialised form of a structure with one string field. */
  function OneField(name: Bytes, value: Bytes): Bytes {
    [OPEN_BRACE] + Quote(name) + [COLON] + Quote(value) + [CLOSE_BRACE]
  }

  function MakeTextStructure(text: Bytes): Bytes {
    OneField(BODY_TEXT, text)
  }

  function MakeBinaryStructure(data: Bytes): Bytes {
    OneField(BODY_DATA, Base64.Encode(data))
  }

  function Mask(data: Bytes): Bytes {
    if Utf8.Valid(data) then MakeTextStructure(data) else MakeBinaryStructure(data)
  }

  // Reading the structure back

  function SkipSpace(s: Bytes): (r: Bytes)
    ensures |r| <= |s|
  {
    if s != [] && s[0] in {32, 9, 10, 13} then SkipSpace(s[1..]) else s
  }

  /** The fields met so far; a field that was met may hold null. */
  datatype Fields = Fields(text: Option<Option<Bytes>>, data: Option<Option<Bytes>>)

  predicate IsKnown(name: Bytes) {
    name == BODY_TEXT || name == BODY_DATA
  }

  /** A second occurrence of a known field is an error. */
  function Assign(fields: Fields, name: Bytes, value: Option<Bytes>): Option<Fields>
    requires IsKnown(name)
  {
    if name == BODY_TEXT then
      if fields.text.None? then Some(fields.(text := Some(value))) else None
    else
      if fields.data.None? then Some(fields.(data := Some(value))) else None
  }

  function ReadValue(s: Bytes): (r: Option<(Option<Bytes>, Bytes)>)
    ensures r.Some? ==> |r.value.1| < |s|
  {
    if s != [] && s[0] == DOUBLE_QUOTE then
      var lit := ReadLiteral(s[1..]);
      if lit.None? then None else Some((Some(lit.value.0), lit.value.1))
    else if NULL <= s then Some((None, s[4..]))
    else None
  }

  // Values of unknown members may be any JSON (sections 3 to 7 of RFC 8259); they are skipped

  function SkipString(s: Bytes): (r: Option<Bytes>)
    ensures r.Some? ==> |r.value| < |s|
    decreases |s|
  {
    if s == [] || s[0] < 32 then None
    else if s[0] == DOUBLE_QUOTE then Some(s[1..])
    else if s[0] != BACKSLASH then SkipString(s[1..])
    else if |s| > 1 && s[1] in {34, 92, 47, 98, 102, 110, 114, 116} then SkipString(s[2..])
    else if |s| > 1 && s[1] == 117 && Hex4(s[2..]).Some? then SkipString(s[6..])
    else None
  }

  function SkipDigits(s: Bytes): (r: Bytes)
    ensures |r| <= |s|
  {
    if s != [] && 48 <= s[0] <= 57 then SkipDigits(s[1..]) else s
  }

  function SkipSomeDigits(s: Bytes): (r: Option<Bytes>)
    ensures r.Some? ==> |r.value| < |s|
  {
    if |SkipDigits(s)| < |s| then Some(SkipDigits(s)) else None
  }

  function SkipInteger(s: Bytes): (r: Option<Bytes>)
    ensures r.Some? ==> |r.value| < |s|
  {
    var i := if s != [] && s[0] == 45 then s[1..] else s;
    if i != [] && i[0] == 48 then Some(i[1..]) else SkipSomeDigits(i)
  }

  function SkipFraction(s: Bytes): (r: Option<Bytes>)
    ensures r.Some? ==> |r.value| <= |s|
  {
    if s != [] && s[0] == 46 then SkipSomeDigits(s[1..]) else Some(s)
  }

  function SkipExponent(s: Bytes): (r: Option<Bytes>)
    ensures r.Some? ==> |r.value| <= |s|
  {
    if s == [] || s[0] !in {69, 101} then Some(s)
    else SkipSomeDigits(if |s| > 1 && s[1] in {43, 45} then s[2..] else s[1..])
  }

  function SkipNumber(s: Bytes): (r: Option<Bytes>)
    ensures r.Some? ==> |r.value| < |s|
  {
    match SkipInteger(s)
    case None => None
    case Some(afterInteger) =>
      match SkipFraction(afterInteger)
      case None => None
      case Some(afterFraction) => SkipExponent(afterFraction)
  }

  function SkipValue(s: Bytes): (r: Option<Bytes>)
    ensures r.Some? ==> |r.value| < |s|
    decreases |s|, 0
  {
    if s == [] then None
    else if s[0] == DOUBLE_QUOTE then SkipString(s[1..])
    else if NULL <= s || TRUE <= s then Some(s[4..])
    else if FALSE <= s then Some(s[5..])
    else if s[0] == OPEN_BRACE || s[0] == OPEN_BRACKET then
      var inner := SkipSpace(s[1..]);
      var close := if s[0] == OPEN_BRACE then CLOSE_BRACE else CLOSE_BRACKET;
      if inner != [] && inner[0] == close then Some(inner[1..]) else SkipItems(inner, close)
    else SkipNumber(s)
  }

  /** Items up to the closing mark; those of an object have a name. */
  function SkipItems(s: Bytes, close: Byte): (r: Option<Bytes>)
    ensures r.Some? ==> |r.value| < |s|
    decreases |s|, 1
  {
    var value := if close == CLOSE_BRACE then SkipName(s) else Some(s);
    if value.None? then None
    else
      var after := SkipValue(value.value);
      if after.None? then None
      else
        var end := SkipSpace(after.value);
        if end == [] then None
        else if end[0] == COMMA then SkipItems(SkipSpace(end[1..]), close)
        else if end[0] == close then Some(end[1..])
        else None
  }

  function SkipName(s: Bytes): (r: Option<Bytes>)
    ensures r.Some? ==> |r.value| < |s|
  {
    if s == [] || s[0] != DOUBLE_QUOTE then None
    else
      var after := SkipString(s[1..]);
      if after.None? then None
      else
        var colon := SkipSpace(after.value);
        if colon == [] || colon[0] != COLON then None else Some(SkipSpace(colon[1..]))
  }

  /** The value of one member, and what follows it. */
  function ReadMember(fields: Fields, name: Bytes, s: Bytes): (r: Option<(Fields, Bytes)>)
    ensures r.Some? ==> |r.value.1| < |s|
  {
    if !IsKnown(name) then
      var rest := SkipValue(s);
      if rest.None? then None else Some((fields, rest.value))
    else
      var value := ReadValue(s);
      if value.None? then None
      else
        var fields' := Assign(fields, name, value.value.0);
        if fields'.None? then None else Some((fields'.value, value.value.1))
  }

  function ReadMembers(s: Bytes, fields: Fields): Option<Fields>
    decreases |s|
  {
    if s == [] || s[0] != DOUBLE_QUOTE then None
    else
      var name := ReadLiteral(s[1..]);
      if name.None? then None
      else
        var colon := SkipSpace(name.value.1);
        if colon == [] || colon[0] != COLON then None
        else
          var member := ReadMember(fields, name.value.0, SkipSpace(colon[1..]));
          if member.None? then None
          else
            var end := SkipSpace(member.value.1);
            if end == [] then None
            else if end[0] == COMMA then ReadMembers(SkipSpace(end[1..]), member.value.0)
            else if end[0] == CLOSE_BRACE && SkipSpace(end[1..]) == [] then Some(member.value.0)
            else None
  }

  function StructureFromString(s: Bytes): Option<Fields> {
    var open := SkipSpace(s);
    if open == [] || open[0] != OPEN_BRACE then None
    else
      var inner := SkipSpace(open[1..]);
      if inner != [] && inner[0] == CLOSE_BRACE then
        if SkipSpace(inner[1..]) == [] then Some(Fields(None, None)) else None
      else ReadMembers(inner, Fields(None, None))
  }

  function Present(field: Option<Option<Bytes>>): Option<Bytes> {
    if field.None? then None else field.value
  }

  function DataVectorFromStructure(fields: Fields): Result<Bytes, MasqueradeError> {
    match (Present(fields.text), Present(fields.data))
    case (Some(text), None) => Ok(text)
    case (None, Some(data)) =>
      var decoded := Base64.Decode(data);
      if decoded.Some? then Ok(decoded.value) else Err(HighLevelDataError)
    case _ => Err(HighLevelDataError)
  }

  function Unmask(item: Bytes): Result<UnmaskedChunk, MasqueradeError> {
    if !Utf8.Valid(item) then Err(LowLevelDataError)
    else
      var fields := StructureFromString(item);
      if fields.None? then Err(MidLevelDataError)
      else
        match DataVectorFromStructure(fields.value)
        case Ok(data) => Ok(UnmaskedChunk(data, true, false))
        case Err(e) => Err(e)
  }

  // Properties

  lemma {:induction false} OneFieldIsUtf8(name: Bytes, value: Bytes)
    requires Utf8.Valid(name) && Utf8.Valid(value)
    ensures Utf8.Valid(OneField(name, value))
  {
    QuoteIsUtf8(name);
    QuoteIsUtf8(value);
    Utf8.AsciiIsValid([OPEN_BRACE]);
    Utf8.AsciiIsValid([COLON]);
    Utf8.AsciiIsValid([CLOSE_BRACE]);
    Utf8.ConcatIsValid([OPEN_BRACE], Quote(name));
    Utf8.ConcatIsValid([OPEN_BRACE] + Quote(name), [COLON]);
    Utf8.ConcatIsValid([OPEN_BRACE] + Quote(name) + [COLON], Quote(value));
    Utf8.ConcatIsValid([OPEN_BRACE] + Quote(name) + [COLON] + Quote(value), [CLOSE_BRACE]);
  }

  lemma {:induction false} ReadValueQuote(value: Bytes, rest: Bytes)
    ensures ReadValue(Quote(value) + rest) == Some((Some(value), rest))
  {
    hide ReadLiteral, FlatMap, EscapeByte;
    ReadLiteralQuote(value, rest);
    assert (Quote(value) + rest)[1..] == Escape(value) + [DOUBLE_QUOTE] + rest;
  }

  /** Reading one quoted member passes over its name and value. */
  lemma {:induction false} ReadFirstMember(name: Bytes, value: Bytes, rest: Bytes, fields: Fields)
    requires rest != [] && SkipSpace(rest) == rest
    ensures var member := if IsKnown(name) then Assign(fields, name, Some(value)) else Some(fields);
            ReadMembers(Quote(name) + ([COLON] + (Quote(value) + rest)), fields)
            == if member.None? then None
               else if rest[0] == COMMA then ReadMembers(SkipSpace(rest[1..]), member.value)
               else if rest[0] == CLOSE_BRACE && SkipSpace(rest[1..]) == [] then member
               else None
  {
    hide ReadLiteral, ReadValue, FlatMap, EscapeByte, Assign, SkipValue;
    var afterName := [COLON] + (Quote(value) + rest);
    var s := Quote(name) + afterName;
    ReadLiteralQuote(name, afterName);
    assert s[1..] == Escape(name) + [DOUBLE_QUOTE] + afterName;
    assert SkipSpace(afterName) == afterName && afterName[1..] == Quote(value) + rest;
    assert SkipSpace(afterName[1..]) == afterName[1..];
    ReadValueQuote(value, rest);
    SkipValueQuote(value, rest);
  }

  lemma {:induction false} SkipStringEscaped(s: Bytes, rest: Bytes)
    ensures SkipString(Escape(s) + ([DOUBLE_QUOTE] + rest)) == Some(rest)
  {
    var quoted := [DOUBLE_QUOTE] + rest;
    if s == [] {
      assert Escape(s) + quoted == quoted && quoted[1..] == rest;
    } else {
      SkipStringEscaped(s[1..], rest);
      EscapeFront(s, quoted);
      SkipEscapedByte(s[0], Escape(s[1..]) + quoted);
    }
  }

  lemma {:induction false} SkipEscapedByte(b: Byte, more: Bytes)
    ensures SkipString(EscapeByte(b) + more) == SkipString(more)
  {
    var e := EscapeByte(b);
    var text := e + more;
    if |e| == 1 {
      assert text[1..] == more;
    } else if |e| == 2 {
      assert text[2..] == more;
    } else {
      assert text[6..] == more && text[1] == 117;
      var digits := text[2..];
      assert digits[0] == digits[1] == 48 && digits[2] == HexDigit(b / 16) && digits[3] == HexDigit(b % 16);
      assert HexValue(48).Some? && HexValue(digits[2]).Some? && HexValue(digits[3]).Some?;
      assert Hex4(digits).Some?;
    }
  }

  lemma {:induction false} SkipValueQuote(value: Bytes, rest: Bytes)
    ensures SkipValue(Quote(value) + rest) == Some(rest)
  {
    hide FlatMap, EscapeByte, SkipString;
    SkipStringEscaped(value, rest);
    assert (Quote(value) + rest)[1..] == Escape(value) + ([DOUBLE_QUOTE] + rest);
  }

  lemma {:induction false} ReadOneField(name: Bytes, value: Bytes)
    requires IsKnown(name)
    ensures StructureFromString(OneField(name, value)) == Assign(Fields(None, None), name, Some(value))
  {
    hide ReadMembers, FlatMap, EscapeByte, Assign;
    var s := OneField(name, value);
    var inner := Quote(name) + ([COLON] + (Quote(value) + [CLOSE_BRACE]));
    assert s[1..] == inner;
    assert SkipSpace(s) == s && SkipSpace(inner) == inner;
    assert SkipSpace([CLOSE_BRACE]) == [CLOSE_BRACE] && [CLOSE_BRACE][1..] == [];
    ReadFirstMember(name, value, [CLOSE_BRACE], Fields(None, None));
  }

  /** A structure with one more string field in front. */
  function TwoFields(name: Bytes, value: Bytes, name': Bytes, value': Bytes): Bytes {
    [OPEN_BRACE] + Quote(name) + [COLON] + Quote(value) + [COMMA] + OneField(name', value')[1..]
  }

  lemma {:induction false} SkipNoSpace(s: Bytes, rest: Bytes)
    ensures Quote(s) + rest != [] && (Quote(s) + rest)[0] == DOUBLE_QUOTE && SkipSpace(Quote(s) + rest) == Quote(s) + rest
  {
    hide FlatMap;
  }

  lemma {:induction false} ReadTwoFields(name: Bytes, value: Bytes, name': Bytes, value': Bytes)
    requires IsKnown(name')
    ensures var first := if IsKnown(name) then Assign(Fields(None, None), name, Some(value)) else Some(Fields(None, None));
            StructureFromString(TwoFields(name, value, name', value'))
            == if first.None? then None else Assign(first.value, name', Some(value'))
  {
    hide ReadMembers, Quote, Assign;
    var close := [CLOSE_BRACE];
    var more := Quote(name') + ([COLON] + (Quote(value') + close));
    var rest := [COMMA] + more;
    var inner := Quote(name) + ([COLON] + (Quote(value) + rest));
    var s := TwoFields(name, value, name', value');
    assert OneField(name', value')[1..] == more;
    assert s[1..] == inner && rest[1..] == more && close[1..] == [];
    SkipNoSpace(name, [COLON] + (Quote(value) + rest));
    SkipNoSpace(name', [COLON] + (Quote(value') + close));
    assert SkipSpace(s) == s && SkipSpace(rest) == rest && SkipSpace(close) == close;
    ReadFirstMember(name, value, rest, Fields(None, None));
    var first := if IsKnown(name) then Assign(Fields(None, None), name, Some(value)) else Some(Fields(None, None));
    if first.Some? {
      ReadFirstMember(name', value', close, first.value);
    }
  }

  lemma {:induction false} TwoFieldsIsUtf8(name: Bytes, value: Bytes, name': Bytes, value': Bytes)
    requires Utf8.Valid(name) && Utf8.Valid(value) && Utf8.Valid(name') && Utf8.Valid(value')
    ensures Utf8.Valid(TwoFields(name, value, name', value'))
  {
    hide FlatMap, EscapeByte;
    var s, t := OneField(name, value), OneField(name', value');
    OneFieldIsUtf8(name, value);
    OneFieldIsUtf8(name', value');
    assert Utf8.Valid(t[1..]);
    var front := s[..|s| - 1];
    assert front == [OPEN_BRACE] + Quote(name) + [COLON] + Quote(value);
    QuoteIsUtf8(name);
    QuoteIsUtf8(value);
    Utf8.AsciiIsValid([OPEN_BRACE]);
    Utf8.AsciiIsValid([COLON]);
    Utf8.AsciiIsValid([COMMA]);
    hide Utf8.Valid;
    Utf8.ConcatIsValid([OPEN_BRACE], Quote(name));
    Utf8.ConcatIsValid([OPEN_BRACE] + Quote(name), [COLON]);
    Utf8.ConcatIsValid([OPEN_BRACE] + Quote(name) + [COLON], Quote(value));
    Utf8.ConcatIsValid(front, [COMMA]);
    Utf8.ConcatIsValid(front + [COMMA], t[1..]);
  }

  lemma {:induction false} KnownIsUtf8(name: Bytes)
    requires IsKnown(name)
    ensures Utf8.Valid(name)
  {
    hide Utf8.Valid;
    assert Utf8.Ascii(BODY_TEXT) && Utf8.Ascii(BODY_DATA);
    Utf8.AsciiIsValid(name);
  }

  /**
   * A member beside the one that carries the payload: it is ignored when its name is not known, a
   * repeat is a schema error, and body text together with body data cannot be resolved.
   */
  lemma {:induction false} UnmaskTwoFields(name: Bytes, value: Bytes, name': Bytes, value': Bytes)
    requires Utf8.Valid(name) && Utf8.Valid(value) && Utf8.Valid(value') && IsKnown(name')
    ensures Unmask(TwoFields(name, value, name', value'))
            == if !IsKnown(name) then Unmask(OneField(name', value'))
               else if name == name' then Err(MidLevelDataError)
               else Err(HighLevelDataError)
  {
    hide StructureFromString, TwoFields, OneField, Utf8.Valid, Base64.Decode;
    KnownIsUtf8(name');
    TwoFieldsIsUtf8(name, value, name', value');
    OneFieldIsUtf8(name', value');
    ReadTwoFields(name, value, name', value');
    ReadOneField(name', value');
  }

  /** Unmasking undoes masking, for every payload. */
  lemma {:induction false} UnmaskMask(data: Bytes)
    ensures Unmask(Mask(data)) == Ok(UnmaskedChunk(data, true, false))
  {
    if Utf8.Valid(data) {
      UnmaskText(data);
    } else {
      UnmaskBinary(data);
    }
  }

  lemma {:induction false} UnmaskText(text: Bytes)
    requires Utf8.Valid(text)
    ensures Unmask(MakeTextStructure(text)) == Ok(UnmaskedChunk(text, true, false))
  {
    assert Utf8.Valid(OneField(BODY_TEXT, text)) by {
      Utf8.AsciiIsValid(BODY_TEXT);
      OneFieldIsUtf8(BODY_TEXT, text);
    }
    ReadOneField(BODY_TEXT, text);
  }

  lemma {:induction false} UnmaskBinary(data: Bytes)
    ensures Unmask(MakeBinaryStructure(data)) == Ok(UnmaskedChunk(data, true, false))
  {
    var text := Base64.Encode(data);
    assert Utf8.Valid(OneField(BODY_DATA, text)) by {
      Utf8.AsciiIsValid(BODY_DATA);
      Base64.EncodeIsAscii(data);
      Utf8.AsciiIsValid(text);
      OneFieldIsUtf8(BODY_DATA, text);
    }
    ReadOneField(BODY_DATA, text);
    assert DataVectorFromStructure(Fields(None, Some(Some(text)))) == Ok(data) by {
      Base64.DecodeEncode(data);
    }
  }

  lemma {:induction false} OneFieldIsFrame(name: Bytes, value: Bytes)
    ensures IsFrame(OneField(name, value))
  {
    hide Read, FlatMap, EscapeByte, LexOf;
    var s1 := [OPEN_BRACE];
    var s2 := s1 + Quote(name);
    var s3 := s2 + [COLON];
    var s4 := s3 + Quote(value);
    var s := OneField(name, value);
    ReadOne(Idle, OPEN_BRACE);
    ReadQuote(s1, name);
    ReadConcat(Idle, s1, Quote(name));
    ReadOne(Open(s2, IN_OBJECT), COLON);
    ReadConcat(Idle, s2, [COLON]);
    ReadQuote(s3, value);
    ReadConcat(Idle, s3, Quote(value));
    ReadOne(Open(s4, IN_OBJECT), CLOSE_BRACE);
    ReadConcat(Idle, s4, [CLOSE_BRACE]);
    assert Read(Idle, s).frames == [s];
    var gaps := Conservation(s);
    assert IsFrame(Read(Idle, s).frames[0]);
  }

  /** A masked payload is one frame: it closes at its last byte, whatever braces and quotes it contains. */
  lemma MaskIsFrame(data: Bytes)
    ensures IsFrame(Mask(data))
  {
    if Utf8.Valid(data) {
      OneFieldIsFrame(BODY_TEXT, data);
    } else {
      OneFieldIsFrame(BODY_DATA, Base64.Encode(data));
    }
  }
}
