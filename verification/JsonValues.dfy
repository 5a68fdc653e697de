/**
 * The grammar of JSON values (sections 2 to 7 of RFC 8259), and that the masquerader's parser skips
 * exactly these where a member is not its own.
 */
module JsonValues {
  import opened Basics
  import opened JsonAutomaton
  import opened JsonText
  import opened JsonMasquerading
  import Utf8

  /** What a string is made of. */
  datatype Piece = Raw(b: Byte) | Short(letter: Byte) | Numbered(digits: Bytes)

  datatype Numeral = Numeral(minus: bool, integer: Bytes, fraction: Bytes, mark: Byte, sign: Bytes, exponent: Bytes)

  datatype Json =
    | Word(text: Bytes)
    | Number(numeral: Numeral)
    | Text(pieces: seq<Piece>)
    | Array(items: Items)
    | Object(items: Items)

  /** The items between brackets or braces; white space alone when there are none. */
  datatype Items = Blank(space: Bytes) | Last(item: Item) | More(item: Item, rest: Items)

  /** An item and the white space around its parts; only those of an object have a name. */
  datatype Item = Item(before: Bytes, name: seq<Piece>, afterName: Bytes, afterColon: Bytes, value: Json, after: Bytes)

  predicate IsSpace(s: Bytes) {
    forall i :: 0 <= i < |s| ==> s[i] in {32, 9, 10, 13}
  }

  predicate AreDigits(s: Bytes) {
    forall i :: 0 <= i < |s| ==> 48 <= s[i] <= 57
  }

  predicate PieceFits(p: Piece) {
    match p
    case Raw(b) => b >= 32 && b != DOUBLE_QUOTE && b != BACKSLASH
    case Short(letter) => letter in {34, 92, 47, 98, 102, 110, 114, 116}
    case Numbered(digits) => |digits| == 4 && forall i :: 0 <= i < 4 ==> HexValue(digits[i]).Some?
  }

  predicate PiecesFit(pieces: seq<Piece>) {
    forall i :: 0 <= i < |pieces| ==> PieceFits(pieces[i])
  }

  /** No leading zeros; a fraction, and an exponent, is there when it has digits. */
  predicate NumeralFits(n: Numeral) {
    && n.integer != [] && AreDigits(n.integer) && (n.integer[0] == 48 ==> |n.integer| == 1)
    && AreDigits(n.fraction) && AreDigits(n.exponent)
    && n.mark in {69, 101} && n.sign in {[], [43], [45]}
  }

  predicate Fits(v: Json)
    decreases v
  {
    match v
    case Word(text) => text == NULL || text == TRUE || text == FALSE
    case Number(numeral) => NumeralFits(numeral)
    case Text(pieces) => PiecesFit(pieces)
    case Array(items) => ItemsFit(items)
    case Object(items) => ItemsFit(items)
  }

  predicate ItemsFit(items: Items)
    decreases items
  {
    match items
    case Blank(space) => IsSpace(space)
    case Last(item) => ItemFits(item)
    case More(item, rest) => ItemFits(item) && !rest.Blank? && ItemsFit(rest)
  }

  predicate ItemFits(item: Item)
    decreases item
  {
    && IsSpace(item.before) && IsSpace(item.afterName) && IsSpace(item.afterColon) && IsSpace(item.after)
    && PiecesFit(item.name) && Fits(item.value)
  }

  function PieceBytes(p: Piece): Bytes {
    match p
    case Raw(b) => [b]
    case Short(letter) => [BACKSLASH, letter]
    case Numbered(digits) => [BACKSLASH, 117] + digits
  }

  function Quoted(pieces: seq<Piece>): Bytes {
    [DOUBLE_QUOTE] + FlatMap(PieceBytes, pieces) + [DOUBLE_QUOTE]
  }

  function NumeralBytes(n: Numeral): Bytes {
    (if n.minus then [45] else []) + n.integer
    + ((if n.fraction == [] then [] else [46] + n.fraction)
       + (if n.exponent == [] then [] else [n.mark] + n.sign + n.exponent))
  }

  function Print(v: Json): Bytes
    decreases v
  {
    match v
    case Word(text) => text
    case Number(numeral) => NumeralBytes(numeral)
    case Text(pieces) => Quoted(pieces)
    case Array(items) => [OPEN_BRACKET] + (PrintItems(items, false) + [CLOSE_BRACKET])
    case Object(items) => [OPEN_BRACE] + (PrintItems(items, true) + [CLOSE_BRACE])
  }

  function PrintItems(items: Items, named: bool): Bytes
    decreases items
  {
    match items
    case Blank(space) => space
    case Last(item) => PrintItem(item, named)
    case More(item, rest) => PrintItem(item, named) + ([COMMA] + PrintItems(rest, named))
  }

  function PrintName(item: Item): Bytes {
    Quoted(item.name) + (item.afterName + ([COLON] + item.afterColon))
  }

  function PrintItem(item: Item, named: bool): Bytes
    decreases item
  {
    item.before + ((if named then PrintName(item) else []) + (Print(item.value) + item.after))
  }

  /** What may follow a value without becoming part of it. */
  predicate Ends(rest: Bytes) {
    rest == [] || (rest[0] !in {46, 69, 101} && !(48 <= rest[0] <= 57))
  }

  // Every value is skipped

  lemma {:induction false} SkipSpaceBefore(space: Bytes, rest: Bytes)
    requires IsSpace(space)
    ensures SkipSpace(space + rest) == SkipSpace(rest)
  {
    if space == [] {
      assert space + rest == rest;
    } else {
      assert (space + rest)[1..] == space[1..] + rest;
      SkipSpaceBefore(space[1..], rest);
    }
  }

  lemma {:induction false} NoSpaceToSkip(s: Bytes)
    requires s != [] && s[0] !in {32, 9, 10, 13}
    ensures SkipSpace(s) == s
  {
  }

  lemma {:induction false} SkipOnePiece(p: Piece, more: Bytes)
    requires PieceFits(p)
    ensures SkipString(PieceBytes(p) + more) == SkipString(more)
  {
    var s := PieceBytes(p) + more;
    match p
    case Raw(b) => assert s[1..] == more;
    case Short(letter) => assert s[2..] == more;
    case Numbered(digits) =>
      assert s[6..] == more && s[1] == 117;
      assert s[2..][0] == digits[0] && s[2..][1] == digits[1] && s[2..][2] == digits[2] && s[2..][3] == digits[3];
      assert Hex4(s[2..]).Some?;
  }

  lemma {:induction false} SkipPieces(pieces: seq<Piece>, rest: Bytes)
    requires PiecesFit(pieces)
    ensures SkipString(FlatMap(PieceBytes, pieces) + ([DOUBLE_QUOTE] + rest)) == Some(rest)
  {
    var quoted := [DOUBLE_QUOTE] + rest;
    if pieces == [] {
      assert FlatMap(PieceBytes, pieces) + quoted == quoted && quoted[1..] == rest;
    } else {
      hide SkipString, PieceBytes, PieceFits, FlatMap;
      SkipPieces(pieces[1..], rest);
      PiecesFront(pieces, quoted);
      SkipOnePiece(pieces[0], FlatMap(PieceBytes, pieces[1..]) + quoted);
    }
  }

  lemma {:induction false} PiecesFront(pieces: seq<Piece>, rest: Bytes)
    requires pieces != []
    ensures FlatMap(PieceBytes, pieces) + rest == PieceBytes(pieces[0]) + (FlatMap(PieceBytes, pieces[1..]) + rest)
  {
    hide PieceBytes;
  }

  lemma {:induction false} SkipQuoted(pieces: seq<Piece>, rest: Bytes)
    requires PiecesFit(pieces)
    ensures (Quoted(pieces) + rest)[0] == DOUBLE_QUOTE && SkipString((Quoted(pieces) + rest)[1..]) == Some(rest)
  {
    hide FlatMap, SkipString, PieceFits;
    SkipPieces(pieces, rest);
    assert (Quoted(pieces) + rest)[1..] == FlatMap(PieceBytes, pieces) + ([DOUBLE_QUOTE] + rest);
  }

  lemma {:induction false} SkipDigitsBefore(digits: Bytes, rest: Bytes)
    requires AreDigits(digits) && (rest == [] || !(48 <= rest[0] <= 57))
    ensures SkipDigits(digits + rest) == rest
  {
    if digits == [] {
      assert digits + rest == rest;
    } else {
      assert (digits + rest)[1..] == digits[1..] + rest;
      SkipDigitsBefore(digits[1..], rest);
    }
  }

  lemma {:induction false} SkipSomeBefore(digits: Bytes, rest: Bytes)
    requires digits != [] && AreDigits(digits) && (rest == [] || !(48 <= rest[0] <= 57))
    ensures SkipSomeDigits(digits + rest) == Some(rest)
  {
    SkipDigitsBefore(digits, rest);
  }

  lemma {:induction false} SkipIntegerBefore(minus: bool, integer: Bytes, rest: Bytes)
    requires integer != [] && AreDigits(integer) && (integer[0] == 48 ==> |integer| == 1)
    requires rest == [] || !(48 <= rest[0] <= 57)
    ensures SkipInteger((if minus then [45] else []) + integer + rest) == Some(rest)
  {
    var s := (if minus then [45] else []) + integer + rest;
    assert minus ==> s[1..] == integer + rest;
    assert !minus ==> s == integer + rest && s[0] == integer[0];
    assert (integer + rest)[0] == integer[0] && (|integer| == 1 ==> (integer + rest)[1..] == rest);
    SkipSomeBefore(integer, rest);
  }

  lemma {:induction false} SkipFractionBefore(fraction: Bytes, rest: Bytes)
    requires AreDigits(fraction) && (Ends(rest) || rest[0] in {69, 101})
    ensures SkipFraction((if fraction == [] then [] else [46] + fraction) + rest) == Some(rest)
  {
    if fraction == [] {
      assert [] + rest == rest;
    } else {
      assert ([46] + fraction + rest)[1..] == fraction + rest;
      SkipSomeBefore(fraction, rest);
    }
  }

  lemma {:induction false} SkipExponentBefore(n: Numeral, rest: Bytes)
    requires NumeralFits(n) && Ends(rest)
    ensures SkipExponent((if n.exponent == [] then [] else [n.mark] + n.sign + n.exponent) + rest) == Some(rest)
  {
    if n.exponent == [] {
      assert [] + rest == rest;
    } else {
      var s := [n.mark] + n.sign + n.exponent + rest;
      assert if n.sign == [] then s[1..] == n.exponent + rest && s[1] == n.exponent[0]
             else s[2..] == n.exponent + rest && s[1] == n.sign[0];
      SkipSomeBefore(n.exponent, rest);
    }
  }

  lemma {:induction false} SkipNumeral(n: Numeral, rest: Bytes)
    requires NumeralFits(n) && Ends(rest)
    ensures SkipNumber(NumeralBytes(n) + rest) == Some(rest)
  {
    var front := (if n.minus then [45] else []) + n.integer;
    var fraction := if n.fraction == [] then [] else [46] + n.fraction;
    var exponent := if n.exponent == [] then [] else [n.mark] + n.sign + n.exponent;
    assert NumeralBytes(n) + rest == front + (fraction + (exponent + rest));
    assert exponent != [] ==> (exponent + rest)[0] == n.mark;
    assert exponent == [] ==> exponent + rest == rest;
    assert fraction != [] ==> (fraction + (exponent + rest))[0] == 46;
    assert fraction == [] ==> fraction + (exponent + rest) == exponent + rest;
    hide SkipInteger, SkipFraction, SkipExponent, AreDigits;
    SkipIntegerBefore(n.minus, n.integer, fraction + (exponent + rest));
    SkipFractionBefore(n.fraction, exponent + rest);
    SkipExponentBefore(n, rest);
  }

  /** A value begins with none of the marks that end a list. */
  lemma {:induction false} PrintFront(v: Json)
    requires Fits(v)
    ensures Print(v) != [] && Print(v)[0] !in {32, 9, 10, 13, CLOSE_BRACE, CLOSE_BRACKET, COMMA}
    ensures v.Number? ==> Print(v)[0] == 45 || 48 <= Print(v)[0] <= 57
  {
    match v
    case Number(n) =>
      assert Print(v)[0] == if n.minus then 45 else n.integer[0];
    case _ =>
  }

  function Close(named: bool): Byte {
    if named then CLOSE_BRACE else CLOSE_BRACKET
  }

  /** Every JSON value is skipped, whatever it holds and whatever follows it. */
  lemma {:induction false} SkipsValue(v: Json, rest: Bytes)
    requires Fits(v) && (v.Number? ==> Ends(rest))
    ensures SkipValue(Print(v) + rest) == Some(rest)
    decreases v
  {
    PrintFront(v);
    match v
    case Word(text) => SkipWord(text, rest);
    case Number(n) => SkipNumberValue(n, rest);
    case Text(pieces) =>
      SkipQuoted(pieces, rest);
      hide SkipString;
    case Array(items) =>
      SkipsList(items, false, rest);
      hide SkipItems;
      SkipList(items, false, rest);
    case Object(items) =>
      SkipsList(items, true, rest);
      hide SkipItems;
      SkipList(items, true, rest);
  }

  lemma {:induction false} SkipWord(text: Bytes, rest: Bytes)
    requires text == NULL || text == TRUE || text == FALSE
    ensures SkipValue(text + rest) == Some(rest)
  {
    hide SkipString, SkipItems, SkipNumber;
    assert (text + rest)[|text|..] == rest && text <= text + rest;
  }

  lemma {:induction false} SkipNumberValue(n: Numeral, rest: Bytes)
    requires NumeralFits(n) && Ends(rest)
    ensures SkipValue(NumeralBytes(n) + rest) == Some(rest)
  {
    PrintFront(Number(n));
    SkipNumeral(n, rest);
    hide SkipString, SkipItems, SkipNumber, NumeralBytes;
    var s := NumeralBytes(n) + rest;
    assert s[0] == NumeralBytes(n)[0];
  }

  /** How the items of a list are skipped, from behind its opening mark. */
  ghost predicate ListSkips(items: Items, named: bool, rest: Bytes) {
    var inner := SkipSpace(PrintItems(items, named) + ([Close(named)] + rest));
    if items.Blank? then inner == [Close(named)] + rest
    else inner != [] && inner[0] != Close(named) && SkipItems(inner, Close(named)) == Some(rest)
  }

  /** A list is skipped when its items are. */
  lemma {:induction false} SkipList(items: Items, named: bool, rest: Bytes)
    requires ListSkips(items, named, rest)
    ensures SkipValue([if named then OPEN_BRACE else OPEN_BRACKET] + (PrintItems(items, named) + [Close(named)]) + rest)
            == Some(rest)
  {
    hide SkipString, SkipItems, SkipNumber, PrintItems, SkipSpace;
    var s := [if named then OPEN_BRACE else OPEN_BRACKET] + (PrintItems(items, named) + [Close(named)]) + rest;
    assert s[1..] == PrintItems(items, named) + ([Close(named)] + rest);
    assert ([Close(named)] + rest)[1..] == rest;
  }

  lemma {:induction false} SkipsList(items: Items, named: bool, rest: Bytes)
    requires ItemsFit(items)
    ensures ListSkips(items, named, rest)
    decreases items
  {
    hide SkipItems, PrintItem, SkipSpace, ItemFits;
    var close := [Close(named)] + rest;
    assert close[1..] == rest;
    match items
    case Blank(space) =>
      NoSpaceToSkip(close);
      SkipSpaceBefore(space, close);
    case Last(item) =>
      SkipsItem(item, named, close);
    case More(item, more) =>
      SkipsList(more, named, rest);
      MoreItems(item, more, named, close);
      SkipsItem(item, named, [COMMA] + (PrintItems(more, named) + close));
  }

  lemma {:induction false} MoreItems(item: Item, more: Items, named: bool, close: Bytes)
    ensures var tail := [COMMA] + (PrintItems(more, named) + close);
            PrintItems(More(item, more), named) + close == PrintItem(item, named) + tail
            && tail[1..] == PrintItems(more, named) + close
  {
    hide PrintItem;
    var tail := [COMMA] + (PrintItems(more, named) + close);
    assert PrintItems(More(item, more), named) == PrintItem(item, named) + ([COMMA] + PrintItems(more, named));
    assert PrintItem(item, named) + ([COMMA] + PrintItems(more, named)) + close == PrintItem(item, named) + tail;
  }

  /** One item, up to the mark behind it. */
  lemma {:induction false} SkipsItem(item: Item, named: bool, tail: Bytes)
    requires ItemFits(item) && tail != [] && tail[0] in {COMMA, CLOSE_BRACE, CLOSE_BRACKET}
    ensures var inner := SkipSpace(PrintItem(item, named) + tail);
            && inner != [] && inner[0] != Close(named)
            && SkipItems(inner, Close(named))
               == if tail[0] == COMMA then SkipItems(SkipSpace(tail[1..]), Close(named))
                  else if tail[0] == Close(named) then Some(tail[1..]) else None
    decreases item
  {
    hide SkipString, SkipValue, Print, SkipName, PrintName, SkipSpace, Fits, PieceFits;
    var value := Print(item.value) + (item.after + tail);
    var start := (if named then PrintName(item) else []) + value;
    assert PrintItem(item, named) + tail == item.before + start;
    PrintFront(item.value);
    NoSpaceToSkip(value);
    NoSpaceToSkip(tail);
    SkipSpaceBefore(item.before, start);
    SkipSpaceBefore(item.after, tail);
    SpaceEnds(item.after, tail);
    SkipsValue(item.value, item.after + tail);
    if named {
      SkipsName(item, value);
    } else {
      assert [] + value == value;
    }
    NoSpaceToSkip(start);
  }

  lemma {:induction false} SpaceEnds(space: Bytes, tail: Bytes)
    requires IsSpace(space) && tail != [] && tail[0] in {COMMA, CLOSE_BRACE, CLOSE_BRACKET}
    ensures Ends(space + tail)
  {
    assert (space + tail)[0] == if space == [] then tail[0] else space[0];
  }

  lemma {:induction false} SkipsName(item: Item, value: Bytes)
    requires ItemFits(item) && value != [] && SkipSpace(value) == value
    ensures PrintName(item) != [] && PrintName(item)[0] == DOUBLE_QUOTE
    ensures SkipName(PrintName(item) + value) == Some(value)
  {
    var colon := [COLON] + (item.afterColon + value);
    var s := PrintName(item) + value;
    assert s == Quoted(item.name) + (item.afterName + colon);
    SkipQuoted(item.name, item.afterName + colon);
    NoSpaceToSkip(colon);
    SkipSpaceBefore(item.afterName, colon);
    SkipSpaceBefore(item.afterColon, value);
    assert colon[1..] == item.afterColon + value;
    hide SkipString, FlatMap;
  }

  // Nothing else is skipped

  lemma {:induction false} ParseSpace(s: Bytes) returns (space: Bytes)
    ensures IsSpace(space) && s == space + SkipSpace(s)
  {
    if s != [] && s[0] in {32, 9, 10, 13} {
      var more := ParseSpace(s[1..]);
      space := [s[0]] + more;
    } else {
      space := [];
    }
  }

  lemma {:induction false} ParseDigits(s: Bytes) returns (digits: Bytes)
    ensures AreDigits(digits) && s == digits + SkipDigits(s)
  {
    if s != [] && 48 <= s[0] <= 57 {
      var more := ParseDigits(s[1..]);
      digits := [s[0]] + more;
    } else {
      digits := [];
    }
  }

  lemma {:induction false} ParsePieces(s: Bytes) returns (pieces: seq<Piece>)
    requires SkipString(s).Some?
    ensures PiecesFit(pieces) && s == FlatMap(PieceBytes, pieces) + ([DOUBLE_QUOTE] + SkipString(s).value)
    decreases |s|
  {
    if s[0] == DOUBLE_QUOTE {
      pieces := [];
      assert s == [] + ([DOUBLE_QUOTE] + s[1..]);
    } else {
      var piece := if s[0] != BACKSLASH then Raw(s[0]) else if s[1] == 117 then Numbered(s[2..6]) else Short(s[1]);
      FrontPiece(s, piece);
      hide SkipString, PieceBytes, PieceFits, FlatMap;
      var more := s[|PieceBytes(piece)|..];
      var rest := ParsePieces(more);
      pieces := [piece] + rest;
      assert pieces[0] == piece && pieces[1..] == rest;
      assert s == PieceBytes(piece) + more;
      hide PiecesFit;
      PiecesFront(pieces, [DOUBLE_QUOTE] + SkipString(s).value);
    }
  }

  lemma {:induction false} FrontPiece(s: Bytes, piece: Piece)
    requires SkipString(s).Some? && s[0] != DOUBLE_QUOTE
    requires |s| > 1 || s[0] != BACKSLASH
    requires piece == if s[0] != BACKSLASH then Raw(s[0])
                      else if s[1] == 117 && |s| >= 6 then Numbered(s[2..6]) else Short(s[1])
    ensures PieceFits(piece) && PieceBytes(piece) <= s && SkipString(s[|PieceBytes(piece)|..]) == SkipString(s)
  {
    if piece.Numbered? {
      var t := s[2..];
      assert Hex4(t).Some? && t[0] == s[2] && t[1] == s[3] && t[2] == s[4] && t[3] == s[5];
    }
  }

  lemma {:induction false} ParseUnsigned(i: Bytes) returns (integer: Bytes)
    requires (i != [] && i[0] == 48) || SkipSomeDigits(i).Some?
    ensures integer != [] && AreDigits(integer) && (integer[0] == 48 ==> |integer| == 1)
    ensures i == integer + (if i[0] == 48 then i[1..] else SkipSomeDigits(i).value)
  {
    if i != [] && i[0] == 48 {
      integer := [48];
      assert i == [48] + i[1..];
    } else {
      integer := ParseDigits(i);
      hide SkipDigits;
      assert i[0] == integer[0];
    }
  }

  lemma {:induction false} ParseInteger(s: Bytes) returns (minus: bool, integer: Bytes)
    requires SkipInteger(s).Some?
    ensures integer != [] && AreDigits(integer) && (integer[0] == 48 ==> |integer| == 1)
    ensures s == (if minus then [45] else []) + integer + SkipInteger(s).value
  {
    hide SkipSomeDigits, AreDigits;
    minus := s != [] && s[0] == 45;
    var i := if minus then s[1..] else s;
    integer := ParseUnsigned(i);
    var sign := if minus then [45] else [];
    assert s == sign + i;
    var rest := SkipInteger(s).value;
    assert i == integer + rest;
    hide SkipInteger;
    JoinThree(sign, integer, rest);
  }

  lemma {:induction false} JoinThree(a: Bytes, b: Bytes, c: Bytes)
    ensures a + (b + c) == a + b + c
  {
  }

  lemma {:induction false} ParseFraction(s: Bytes) returns (fraction: Bytes)
    requires SkipFraction(s).Some?
    ensures AreDigits(fraction) && s == (if fraction == [] then [] else [46] + fraction) + SkipFraction(s).value
  {
    if s != [] && s[0] == 46 {
      fraction := ParseDigits(s[1..]);
      assert s == [46] + s[1..];
    } else {
      fraction := [];
      assert s == [] + s;
    }
  }

  lemma {:induction false} ParseExponent(s: Bytes) returns (mark: Byte, sign: Bytes, exponent: Bytes)
    requires SkipExponent(s).Some?
    ensures mark in {69, 101} && sign in {[], [43], [45]} && AreDigits(exponent)
    ensures s == (if exponent == [] then [] else [mark] + sign + exponent) + SkipExponent(s).value
  {
    if s == [] || s[0] !in {69, 101} {
      mark, sign, exponent := 101, [], [];
      assert s == [] + s;
    } else {
      hide SkipDigits, AreDigits;
      mark := s[0];
      sign := if |s| > 1 && s[1] in {43, 45} then [s[1]] else [];
      var tail := s[1 + |sign|..];
      exponent := ParseDigits(tail);
      assert s == [mark] + sign + tail;
      JoinThree([mark] + sign, exponent, SkipDigits(tail));
    }
  }

  lemma {:induction false} ParseNumeral(s: Bytes) returns (n: Numeral)
    requires SkipNumber(s).Some?
    ensures NumeralFits(n) && s == NumeralBytes(n) + SkipNumber(s).value
  {
    hide SkipInteger, SkipFraction, SkipExponent, AreDigits;
    var minus, integer := ParseInteger(s);
    var s1 := SkipInteger(s).value;
    var fraction := ParseFraction(s1);
    var s2 := SkipFraction(s1).value;
    var mark, sign, exponent := ParseExponent(s2);
    n := Numeral(minus, integer, fraction, mark, sign, exponent);
    var a := (if minus then [45] else []) + integer;
    var b := if fraction == [] then [] else [46] + fraction;
    var c := if exponent == [] then [] else [mark] + sign + exponent;
    JoinFour(a, b, c, SkipExponent(s2).value);
  }

  lemma {:induction false} JoinFour(a: Bytes, b: Bytes, c: Bytes, d: Bytes)
    ensures a + (b + (c + d)) == a + (b + c) + d
  {
  }

  /** Whatever is skipped is a JSON value. */
  lemma {:induction false} SkippedIsValue(s: Bytes) returns (v: Json)
    requires SkipValue(s).Some?
    ensures Fits(v) && s == Print(v) + SkipValue(s).value
    decreases |s|, 1
  {
    hide SkipString, SkipNumber, SkipItems;
    if s[0] == DOUBLE_QUOTE {
      v := ParseText(s);
    } else if NULL <= s || TRUE <= s || FALSE <= s {
      var n := if FALSE <= s then 5 else 4;
      v := Word(s[..n]);
      assert s == s[..n] + s[n..];
    } else if s[0] == OPEN_BRACE || s[0] == OPEN_BRACKET {
      v := ParseList(s);
    } else {
      var n := ParseNumeral(s);
      v := Number(n);
      assert SkipValue(s) == SkipNumber(s);
    }
  }

  lemma {:induction false} ParseText(s: Bytes) returns (v: Json)
    requires s != [] && s[0] == DOUBLE_QUOTE && SkipString(s[1..]).Some?
    ensures Fits(v) && s == Print(v) + SkipString(s[1..]).value
  {
    var pieces := ParseQuoted(s);
    v := Text(pieces);
  }

  lemma {:induction false} ParseList(s: Bytes) returns (v: Json)
    requires s != [] && (s[0] == OPEN_BRACE || s[0] == OPEN_BRACKET) && SkipValue(s).Some?
    ensures Fits(v) && s == Print(v) + SkipValue(s).value
    decreases |s|, 0
  {
    hide SkipString, SkipNumber, SkipItems, SkipSpace, ItemsFit, PrintItems;
    var named := s[0] == OPEN_BRACE;
    var space := ParseSpace(s[1..]);
    var inner := SkipSpace(s[1..]);
    var rest := SkipValue(s).value;
    var items: Items;
    if inner != [] && inner[0] == Close(named) {
      items := Blank(space);
      BlankFits(space, named);
      assert inner == [Close(named)] + inner[1..];
    } else {
      items := ParseItems(space, inner, named);
    }
    v := if named then Object(items) else Array(items);
    hide SkipValue;
    assert s[1..] == PrintItems(items, named) + ([Close(named)] + rest);
    assert s == [s[0]] + s[1..];
    assert [s[0]] + (PrintItems(items, named) + ([Close(named)] + rest)) == [s[0]] + (PrintItems(items, named) + [Close(named)]) + rest;
  }

  lemma BlankFits(space: Bytes, named: bool)
    requires IsSpace(space)
    ensures ItemsFit(Blank(space)) && PrintItems(Blank(space), named) == space
  {
  }

  lemma {:induction false} ParseItems(before: Bytes, s: Bytes, named: bool) returns (items: Items)
    requires IsSpace(before) && SkipItems(s, Close(named)).Some?
    ensures ItemsFit(items) && !items.Blank?
    ensures before + s == PrintItems(items, named) + ([Close(named)] + SkipItems(s, Close(named)).value)
    decreases |s|, 3
  {
    var item, end := ParseItem(before, s, named);
    var close := SkipItems(s, Close(named)).value;
    hide SkipItems, SkipSpace, PrintItem, ItemFits, IsSpace;
    if end[0] == COMMA {
      var space := ParseSpace(end[1..]);
      var next := SkipSpace(end[1..]);
      var more := ParseItems(space, next, named);
      items := More(item, more);
      assert end == [COMMA] + end[1..];
      JoinFour(PrintItem(item, named), [COMMA], PrintItems(more, named), [Close(named)] + close);
    } else {
      items := Last(item);
      assert end == [Close(named)] + end[1..];
    }
  }

  lemma {:induction false} ParseItem(before: Bytes, s: Bytes, named: bool) returns (item: Item, end: Bytes)
    requires IsSpace(before) && SkipItems(s, Close(named)).Some?
    ensures ItemFits(item) && before + s == PrintItem(item, named) + end
    ensures 0 < |end| < |s|
    ensures SkipItems(s, Close(named))
            == if end[0] == COMMA then SkipItems(SkipSpace(end[1..]), Close(named))
               else if end[0] == Close(named) then Some(end[1..]) else None
    decreases |s|, 2
  {
    var value := s;
    var name: seq<Piece>, afterName: Bytes, afterColon: Bytes := [], [], [];
    if named {
      name, afterName, afterColon := ParseName(s);
      value := SkipName(s).value;
    }
    var v := SkippedIsValue(value);
    var tail := SkipValue(value).value;
    var after := ParseSpace(tail);
    end := SkipSpace(tail);
    item := Item(before, name, afterName, afterColon, v, after);
    hide SkipValue, SkipSpace, Print, SkipName, Quoted;
    var front := if named then PrintName(item) else [];
    assert s == front + value;
    JoinItem(before, front, Print(v), after, end);
  }

  lemma {:induction false} JoinItem(a: Bytes, b: Bytes, c: Bytes, d: Bytes, e: Bytes)
    ensures a + (b + (c + (d + e))) == a + (b + (c + d)) + e
  {
  }

  lemma {:induction false} ParseName(s: Bytes) returns (name: seq<Piece>, afterName: Bytes, afterColon: Bytes)
    requires SkipName(s).Some?
    ensures PiecesFit(name) && IsSpace(afterName) && IsSpace(afterColon)
    ensures s == Quoted(name) + (afterName + ([COLON] + afterColon)) + SkipName(s).value
  {
    hide SkipString, SkipSpace, FlatMap, PiecesFit, Quoted;
    var more := SkipString(s[1..]).value;
    name := ParseQuoted(s);
    afterName := ParseSpace(more);
    var colon := SkipSpace(more);
    afterColon := ParseSpace(colon[1..]);
    assert colon == [COLON] + colon[1..];
    JoinName(Quoted(name), afterName, afterColon, SkipSpace(colon[1..]));
  }

  lemma {:induction false} ParseQuoted(s: Bytes) returns (name: seq<Piece>)
    requires s != [] && s[0] == DOUBLE_QUOTE && SkipString(s[1..]).Some?
    ensures PiecesFit(name) && s == Quoted(name) + SkipString(s[1..]).value
  {
    hide SkipString, FlatMap, PiecesFit;
    name := ParsePieces(s[1..]);
    assert s == [DOUBLE_QUOTE] + s[1..];
  }

  lemma {:induction false} JoinName(a: Bytes, b: Bytes, c: Bytes, d: Bytes)
    ensures a + (b + ([COLON] + (c + d))) == a + (b + ([COLON] + c)) + d
  {
  }

  // What this means for a masked payload

  /** A structure with one more field in front, its value any JSON value and any white space around it. */
  function WithValue(name: Bytes, before: Bytes, v: Json, after: Bytes, name': Bytes, value': Bytes): Bytes {
    [OPEN_BRACE] + (Quote(name) + ([COLON] + (before + (Print(v) + (after + ([COMMA] + OneField(name', value')[1..]))))))
  }

  /** A member that is not known is ignored, whatever its value. */
  lemma {:induction false} UnknownValueIsIgnored(name: Bytes, before: Bytes, v: Json, after: Bytes, name': Bytes, value': Bytes)
    requires !IsKnown(name) && IsSpace(before) && Fits(v) && IsSpace(after) && IsKnown(name')
    ensures StructureFromString(WithValue(name, before, v, after, name', value'))
            == StructureFromString(OneField(name', value'))
  {
    hide ReadMembers, Quote, SkipValue, Print, SkipSpace, Assign;
    var more := OneField(name', value')[1..];
    var tail := [COMMA] + more;
    var text := before + (Print(v) + (after + tail));
    var s := WithValue(name, before, v, after, name', value');
    var inner := Quote(name) + ([COLON] + text);
    FrontOfField(name', value');
    assert s[1..] == inner;
    QuoteFront(name, [COLON] + text);
    NoSpaceToSkip(inner);
    NoSpaceToSkip(s);
    NoSpaceToSkip(more);
    NoSpaceToSkip(tail);
    NoSpaceToSkip(OneField(name', value'));
    assert tail[1..] == more;
    ReadUnknown(name, before, v, after, tail, Fields(None, None));
  }

  lemma {:induction false} FrontOfField(name: Bytes, value: Bytes)
    ensures OneField(name, value)[0] == OPEN_BRACE && |OneField(name, value)| > 1
    ensures OneField(name, value)[1] == DOUBLE_QUOTE
  {
    hide FlatMap;
  }

  lemma {:induction false} QuoteFront(s: Bytes, rest: Bytes)
    ensures Quote(s) + rest != [] && (Quote(s) + rest)[0] == DOUBLE_QUOTE
  {
    hide FlatMap;
  }

  lemma {:induction false} ReadUnknown(name: Bytes, before: Bytes, v: Json, after: Bytes, tail: Bytes, fields: Fields)
    requires !IsKnown(name) && IsSpace(before) && Fits(v) && IsSpace(after)
    requires tail != [] && tail[0] == COMMA && SkipSpace(tail) == tail
    ensures ReadMembers(Quote(name) + ([COLON] + (before + (Print(v) + (after + tail)))), fields)
            == ReadMembers(SkipSpace(tail[1..]), fields)
  {
    var value := Print(v) + (after + tail);
    var colon := [COLON] + (before + value);
    var s := Quote(name) + colon;
    hide ReadLiteral, SkipValue, Print, FlatMap, IsKnown;
    ReadLiteralQuote(name, colon);
    assert s[1..] == Escape(name) + [DOUBLE_QUOTE] + colon;
    PrintFront(v);
    NoSpaceToSkip(colon);
    NoSpaceToSkip(value);
    SkipSpaceBefore(before, value);
    SkipSpaceBefore(after, tail);
    SpaceEnds(after, tail);
    SkipsValue(v, after + tail);
    assert colon[1..] == before + value;
  }

  /** A known member that is null counts as absent, unless it is repeated. */
  lemma {:induction false} NullIsAbsent(name: Bytes, before: Bytes, after: Bytes, name': Bytes, value': Bytes)
    requires IsKnown(name) && IsSpace(before) && IsSpace(after) && IsKnown(name')
    ensures var whole := StructureFromString(WithValue(name, before, Word(NULL), after, name', value'));
            var alone := StructureFromString(OneField(name', value'));
            if name == name' then whole == None
            else whole.Some? && alone.Some?
                 && DataVectorFromStructure(whole.value) == DataVectorFromStructure(alone.value)
  {
    hide StructureFromString, WithValue, OneField;
    ReadOneField(name', value');
    ReadNullFirst(name, before, after, name', value');
  }

  lemma {:induction false} ReadNullFirst(name: Bytes, before: Bytes, after: Bytes, name': Bytes, value': Bytes)
    requires IsKnown(name) && IsSpace(before) && IsSpace(after) && IsKnown(name')
    ensures var first := Assign(Fields(None, None), name, None);
            first.Some? && StructureFromString(WithValue(name, before, Word(NULL), after, name', value'))
                           == Assign(first.value, name', Some(value'))
  {
    hide ReadMembers, Quote, SkipSpace, StructureFromString, IsSpace;
    var more := OneField(name', value')[1..];
    var tail := [COMMA] + more;
    var inner := Quote(name) + ([COLON] + (before + (NULL + (after + tail))));
    var first := Assign(Fields(None, None), name, None).value;
    assert WithValue(name, before, Word(NULL), after, name', value') == [OPEN_BRACE] + inner;
    FrontOfField(name', value');
    QuoteFront(name, [COLON] + (before + (NULL + (after + tail))));
    NoSpaceToSkip(more);
    NoSpaceToSkip(tail);
    assert tail[1..] == more;
    hide WithValue, OneField, Assign;
    ReadNull(name, before, after, tail, Fields(None, None));
    OpenObject(inner);
    RestOfField(name', value');
    ReadFirstMember(name', value', [CLOSE_BRACE], first);
  }

  lemma {:induction false} OpenObject(inner: Bytes)
    requires inner != [] && inner[0] == DOUBLE_QUOTE
    ensures StructureFromString([OPEN_BRACE] + inner) == ReadMembers(inner, Fields(None, None))
  {
    hide ReadMembers;
    var s := [OPEN_BRACE] + inner;
    assert s[1..] == inner;
    NoSpaceToSkip(s);
    NoSpaceToSkip(inner);
  }

  lemma {:induction false} RestOfField(name: Bytes, value: Bytes)
    ensures OneField(name, value)[1..] == Quote(name) + ([COLON] + (Quote(value) + [CLOSE_BRACE]))
    ensures SkipSpace([CLOSE_BRACE]) == [CLOSE_BRACE] && SkipSpace([CLOSE_BRACE][1..]) == []
  {
    hide Quote;
    assert [CLOSE_BRACE][1..] == [];
  }

  lemma {:induction false} ReadNull(name: Bytes, before: Bytes, after: Bytes, tail: Bytes, fields: Fields)
    requires IsKnown(name) && IsSpace(before) && IsSpace(after) && Assign(fields, name, None).Some?
    requires tail != [] && tail[0] == COMMA && SkipSpace(tail) == tail
    ensures ReadMembers(Quote(name) + ([COLON] + (before + (NULL + (after + tail)))), fields)
            == ReadMembers(SkipSpace(tail[1..]), Assign(fields, name, None).value)
  {
    var value := NULL + (after + tail);
    var colon := [COLON] + (before + value);
    var s := Quote(name) + colon;
    hide ReadLiteral, FlatMap, Assign;
    ReadLiteralQuote(name, colon);
    assert s[1..] == Escape(name) + [DOUBLE_QUOTE] + colon;
    NoSpaceToSkip(colon);
    NoSpaceToSkip(value);
    SkipSpaceBefore(before, value);
    SkipSpaceBefore(after, tail);
    assert colon[1..] == before + value && value[4..] == after + tail && NULL <= value;
    assert ReadValue(value) == Some((None, after + tail));
    hide ReadValue;
  }

  // Only JSON is accepted

  /** A literal that is read is one that is skipped: raw control characters and bad escapes are refused. */
  lemma {:induction false} ReadIsSkipped(s: Bytes)
    requires ReadLiteral(s).Some?
    ensures SkipString(s) == Some(ReadLiteral(s).value.1)
    decreases |s|
  {
    if s[0] == DOUBLE_QUOTE {
    } else if s[0] != BACKSLASH {
      ReadIsSkipped(s[1..]);
    } else {
      var rest := Unescape(s[1..]).value.1;
      ReadIsSkipped(rest);
      EscapeIsSkipped(s);
    }
  }

  lemma {:induction false} EscapeIsSkipped(s: Bytes)
    requires |s| > 1 && s[0] == BACKSLASH && Unescape(s[1..]).Some?
    ensures SkipString(s) == SkipString(Unescape(s[1..]).value.1)
  {
    hide Utf8.Encode;
    var t := s[1..];
    if t[0] != 117 {
      assert t[1..] == s[2..];
    } else {
      var u := t[1..];
      assert u == s[2..] && u[4..] == s[6..];
      hide Hex4;
      if Unescape(t).value.1 != u[4..] {
        assert u[10..] == s[12..] && u[6..] == s[8..] && s[6] == BACKSLASH && s[7] == 117;
        assert s[6..][2..] == s[8..] && s[6..][6..] == s[12..];
        assert SkipString(s[6..]) == SkipString(s[12..]);
      }
    }
  }

  lemma {:induction false} MemberIsSkipped(fields: Fields, name: Bytes, s: Bytes)
    requires ReadMember(fields, name, s).Some?
    ensures SkipValue(s) == Some(ReadMember(fields, name, s).value.1)
  {
    if IsKnown(name) && s[0] == DOUBLE_QUOTE {
      ReadIsSkipped(s[1..]);
    }
    hide SkipString, ReadLiteral, SkipItems, SkipNumber;
  }

  lemma {:induction false} MembersAreSkipped(s: Bytes, fields: Fields)
    requires ReadMembers(s, fields).Some?
    ensures SkipItems(s, CLOSE_BRACE).Some? && SkipSpace(SkipItems(s, CLOSE_BRACE).value) == []
    decreases |s|
  {
    var name := ReadLiteral(s[1..]).value;
    ReadIsSkipped(s[1..]);
    var colon := SkipSpace(name.1);
    var value := SkipSpace(colon[1..]);
    var member := ReadMember(fields, name.0, value).value;
    MemberIsSkipped(fields, name.0, value);
    var end := SkipSpace(member.1);
    assert SkipName(s) == Some(value);
    if end[0] == COMMA {
      MembersAreSkipped(SkipSpace(end[1..]), member.0);
    }
    hide SkipString, ReadLiteral, SkipValue, ReadMember, SkipName;
  }

  /** Every structure that is accepted is one JSON object, with white space around it. */
  lemma {:induction false} StructureIsObject(s: Bytes) returns (before: Bytes, items: Items, after: Bytes)
    requires StructureFromString(s).Some?
    ensures IsSpace(before) && Fits(Object(items)) && IsSpace(after)
    ensures s == before + (Print(Object(items)) + after)
  {
    hide SkipString, SkipItems, ReadMembers, SkipSpace, SkipValue, StructureFromString, Print, Fits;
    ObjectIsSkipped(s);
    before := ParseSpace(s);
    var open := SkipSpace(s);
    var rest := SkipValue(open).value;
    var v := ParseList(open);
    after := ParseSpace(rest);
    assert after + [] == after;
    items := ObjectItems(v, open, rest);
  }

  lemma {:induction false} ObjectIsSkipped(s: Bytes)
    requires StructureFromString(s).Some?
    ensures var open := SkipSpace(s);
            open != [] && open[0] == OPEN_BRACE && SkipValue(open).Some? && SkipSpace(SkipValue(open).value) == []
  {
    hide SkipString, SkipItems, ReadMembers, SkipSpace, SkipNumber;
    var open := SkipSpace(s);
    var inner := SkipSpace(open[1..]);
    if !(inner != [] && inner[0] == CLOSE_BRACE) {
      MembersAreSkipped(inner, Fields(None, None));
    }
  }

  lemma {:induction false} ObjectItems(v: Json, s: Bytes, rest: Bytes) returns (items: Items)
    requires Fits(v) && s != [] && s[0] == OPEN_BRACE && s == Print(v) + rest
    ensures v == Object(items)
  {
    PrintFront(v);
    assert s[0] == Print(v)[0];
    assert v.Object?;
    items := v.items;
  }
}
