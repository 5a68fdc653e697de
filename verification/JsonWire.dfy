/**
 * What masked payloads look like on the wire, said with the characters of the standards and not with
 * the printer: section 7 of RFC 8259, section 4 of RFC 4648 and section 7 of RFC 3629.
 */
module JsonWire {
  import opened Basics
  import opened JsonAutomaton
  import opened JsonText
  import opened JsonMasquerading
  import Base64
  import Utf8

  /** The bytes of a text that is all ASCII. */
  function Wire(text: string): Bytes
    requires forall i :: 0 <= i < |text| ==> text[i] as int < 128
  {
    seq(|text|, i requires 0 <= i < |text| => text[i] as int)
  }

  // Which structure a payload gets

  /**
   * Text goes out as text: a payload that is the encoding of some characters, and no other, is the
   * value of `bodyText`; any other payload is, in Base64, the value of `bodyData`.
   */
  lemma {:induction false} MaskedText(cs: seq<Utf8.Scalar>)
    ensures StructureFromString(Mask(Utf8.EncodeAll(cs))) == Some(Fields(Some(Some(Utf8.EncodeAll(cs))), None))
  {
    hide StructureFromString, OneField;
    Utf8.EncodeAllIsValid(cs);
    ReadOneField(BODY_TEXT, Utf8.EncodeAll(cs));
  }

  lemma {:induction false} MaskedBinary(data: Bytes)
    requires forall cs: seq<Utf8.Scalar> :: Utf8.EncodeAll(cs) != data
    ensures StructureFromString(Mask(data)) == Some(Fields(None, Some(Some(Base64.Encode(data)))))
    ensures Base64.Decode(Base64.Encode(data)) == Some(data)
  {
    hide StructureFromString, OneField, Base64.Encode;
    NotEncoded(data);
    ReadOneField(BODY_DATA, Base64.Encode(data));
    Base64.DecodeEncode(data);
  }

  lemma {:induction false} NotEncoded(data: Bytes)
    requires forall cs: seq<Utf8.Scalar> :: Utf8.EncodeAll(cs) != data
    ensures !Utf8.Valid(data)
  {
    if Utf8.Valid(data) {
      var cs := Utf8.ValidIsEncoding(data);
      assert false;
    }
  }

  /** Printable ASCII other than the quote and the backslash. */
  ghost predicate Printable(s: Bytes) {
    forall i :: 0 <= i < |s| ==> 32 <= s[i] < 127 && s[i] != 34 && s[i] != 92
  }

  lemma {:induction false} PrintableIsNotEscaped(s: Bytes)
    requires Printable(s)
    ensures Escape(s) == s
  {
    if s == [] {
    } else {
      PrintableIsNotEscaped(s[1..]);
      assert EscapeByte(s[0]) == [s[0]];
      hide EscapeByte;
    }
  }

  lemma NamesArePrintable()
    ensures Printable(BODY_TEXT) && Printable(BODY_DATA)
  {
  }

  lemma FrontsOnTheWire()
    ensures [123, 34] + BODY_TEXT + [34, 58, 34] == Wire("{\"bodyText\":\"")
    ensures [123, 34] + BODY_DATA + [34, 58, 34] == Wire("{\"bodyData\":\"")
    ensures [34, 125] == Wire("\"}")
  {
  }

  lemma {:induction false} FieldOnTheWire(name: Bytes, value: Bytes)
    requires Printable(name) && Printable(value)
    ensures OneField(name, value) == [123, 34] + name + [34, 58, 34] + value + [34, 125]
  {
    hide Escape;
    PrintableIsNotEscaped(name);
    PrintableIsNotEscaped(value);
  }

  /** The very bytes of a masked payload of printable text. */
  lemma {:induction false} TextOnTheWire(text: Bytes)
    requires Printable(text)
    ensures Mask(text) == Wire("{\"bodyText\":\"") + text + Wire("\"}")
  {
    assert Utf8.Valid(text) by {
      Utf8.AsciiIsValid(text);
    }
    hide Utf8.Valid, OneField, Wire;
    FrontsOnTheWire();
    NamesArePrintable();
    FieldOnTheWire(BODY_TEXT, text);
  }

  lemma {:induction false} Base64IsPrintable(s: Bytes)
    ensures Printable(Base64.Encode(s))
  {
    if |s| <= 2 {
    } else {
      Base64IsPrintable(s[3..]);
    }
  }

  /** And of one that is not text. */
  lemma {:induction false} BinaryOnTheWire(data: Bytes)
    requires !Utf8.Valid(data)
    ensures Mask(data) == Wire("{\"bodyData\":\"") + Base64.Encode(data) + Wire("\"}")
  {
    hide Utf8.Valid, OneField, Base64.Encode, Wire;
    FrontsOnTheWire();
    NamesArePrintable();
    Base64IsPrintable(data);
    FieldOnTheWire(BODY_DATA, Base64.Encode(data));
  }

  // Escapes

  const HEX := "0123456789abcdef"

  /** The short escapes. */
  const SHORT: map<int, char> :=
    map[8 := 'b', 9 := 't', 10 := 'n', 12 := 'f', 13 := 'r', 34 := '"', 92 := '\\']

  lemma HexDigits(v: int)
    requires 0 <= v < 16
    ensures HexDigit(v) == HEX[v] as int && HexValue(HEX[v] as int) == Some(v)
    ensures HexValue("0123456789ABCDEF"[v] as int) == Some(v)
  {
  }

  /** How each byte of a string is printed: by a short escape, by its number, or as it is. */
  lemma {:induction false} EscapeTable(b: Byte)
    ensures EscapeByte(b)
            == if b in SHORT then [92, SHORT[b] as int]
               else if b < 32 then Wire("\\u00") + [HEX[b / 16] as int, HEX[b % 16] as int]
               else [b]
  {
    if b !in SHORT && b < 32 {
      HexDigits(b / 16);
      HexDigits(b % 16);
      hide HexDigit;
      assert Wire("\\u00") == [92, 117, 48, 48];
    }
  }

  /** Short escapes are read by the same table; the solidus may be escaped too. */
  lemma {:induction false} UnescapeTable(b: Byte, rest: Bytes)
    requires b in SHORT || b == 47
    ensures Unescape([if b in SHORT then SHORT[b] as int else 47] + rest) == Some(([b], rest))
  {
    var s := [if b in SHORT then SHORT[b] as int else 47] + rest;
    assert s[1..] == rest;
  }

  function HexChar(v: int): Byte
    requires 0 <= v < 16
  {
    HEX[v] as int
  }

  /** Four hexadecimal digits. */
  function Hex(n: int): Bytes
    requires 0 <= n < 0x10000
  {
    [HexChar(n / 0x1000), HexChar(n / 0x100 % 16), HexChar(n / 16 % 16), HexChar(n % 16)]
  }

  lemma {:induction false} HexReads(n: int, rest: Bytes)
    requires 0 <= n < 0x10000
    ensures Hex4(Hex(n) + rest) == Some(n) && (Hex(n) + rest)[4..] == rest
  {
    var a, b, c, d := n / 0x1000, n / 0x100 % 16, n / 16 % 16, n % 16;
    HexDigits(a);
    HexDigits(b);
    HexDigits(c);
    HexDigits(d);
    hide HexValue;
    HexSum(n);
  }

  lemma {:induction false} HexSum(n: int)
    requires 0 <= n < 0x10000
    ensures ((n / 0x1000 * 16 + n / 0x100 % 16) * 16 + n / 16 % 16) * 16 + n % 16 == n
  {
    assert n / 0x100 == n / 16 / 16 && n / 0x1000 == n / 0x100 / 16;
  }

  /** A character escaped by number, as a surrogate pair when it needs one, reads as its UTF-8 encoding. */
  lemma {:induction false} UnicodeEscapeReads(c: Utf8.Scalar, rest: Bytes)
    ensures c < 0x10000 ==> Unescape([117] + Hex(c) + rest) == Some((Utf8.Encode(c), rest))
    ensures c >= 0x10000 ==>
              var (high, low) := (0xD800 + (c - 0x10000) / 0x400, 0xDC00 + (c - 0x10000) % 0x400);
              Unescape([117] + Hex(high) + [92, 117] + Hex(low) + rest) == Some((Utf8.Encode(c), rest))
  {
    hide Hex, Hex4, Utf8.Encode;
    if c < 0x10000 {
      var s := [117] + Hex(c) + rest;
      assert s[1..] == Hex(c) + rest;
      HexReads(c, rest);
    } else {
      var high, low := 0xD800 + (c - 0x10000) / 0x400, 0xDC00 + (c - 0x10000) % 0x400;
      PairReads(high, low, rest);
      assert 0x10000 + (high - 0xD800) * 0x400 + (low - 0xDC00) == c;
    }
  }

  lemma {:induction false} PairReads(high: int, low: int, rest: Bytes)
    requires 0xD800 <= high < 0xDC00 && 0xDC00 <= low < 0xE000
    ensures Unescape([117] + Hex(high) + [92, 117] + Hex(low) + rest)
            == Some((Utf8.Encode(0x10000 + (high - 0xD800) * 0x400 + (low - 0xDC00)), rest))
  {
    hide Hex, Hex4, Utf8.Encode;
    HexReads(high, [92, 117] + Hex(low) + rest);
    HexReads(low, rest);
    HexLength(high);
    HexLength(low);
    PairSlices(Hex(high), Hex(low), rest);
  }

  lemma {:induction false} PairSlices(h: Bytes, l: Bytes, rest: Bytes)
    requires |h| == 4 && |l| == 4
    ensures var s := h + ([92, 117] + l + rest);
            && ([117] + h + [92, 117] + l + rest)[1..] == s
            && |s| >= 10 && s[4] == 92 && s[5] == 117 && s[6..] == l + rest && s[10..] == rest
  {
  }

  lemma HexLength(n: int)
    requires 0 <= n < 0x10000
    ensures |Hex(n)| == 4
  {
  }

  // Base64 and UTF-8

  const UPPER := "ABCDEFGHIJKLMNOPQRSTUVWXYZ"
  const LOWER := "abcdefghijklmnopqrstuvwxyz"
  const ALPHABET := UPPER + LOWER + "0123456789" + "+/"

  lemma Letters(v: int)
    requires 0 <= v < 26
    ensures UPPER[v] as int == 65 + v && LOWER[v] as int == 97 + v
  {
  }

  lemma {:induction false} ConcatAt(a: string, b: string, c: string, d: string, v: int)
    requires 0 <= v < |a + b + c + d|
    ensures (a + b + c + d)[v]
            == if v < |a| then a[v] else if v < |a + b| then b[v - |a|]
               else if v < |a + b + c| then c[v - |a + b|] else d[v - |a + b + c|]
  {
  }

  lemma {:induction false} Alphabet(v: Base64.Sextet)
    ensures Base64.Symbol(v) == ALPHABET[v] as int
  {
    ConcatAt(UPPER, LOWER, "0123456789", "+/", v);
    if v < 26 {
      Letters(v);
    } else if v < 52 {
      Letters(v - 26);
    } else if v < 62 {
      HexDigits(v - 52);
      assert "0123456789"[v - 52] == HEX[v - 52];
    }
  }

  /** Three bytes, as one number, are four symbols, as one number to the base 64; the rest follows. */
  lemma {:induction false} GroupIsOneNumber(a: Byte, b: Byte, c: Byte, rest: Bytes)
    returns (i: Base64.Sextet, j: Base64.Sextet, k: Base64.Sextet, l: Base64.Sextet)
    ensures ((i * 64 + j) * 64 + k) * 64 + l == (a * 256 + b) * 256 + c
    ensures Base64.Encode([a, b, c] + rest)
            == [ALPHABET[i] as int, ALPHABET[j] as int, ALPHABET[k] as int, ALPHABET[l] as int] + Base64.Encode(rest)
  {
    i, j, k, l := a / 4, a % 4 * 16 + b / 16, b % 16 * 4 + c / 64, c % 64;
    Alphabet(i);
    Alphabet(j);
    Alphabet(k);
    Alphabet(l);
    var s := [a, b, c] + rest;
    assert s[0] == a && s[1] == b && s[2] == c && s[3..] == rest;
    hide Base64.Symbol;
    assert Base64.Encode(s) == [Base64.Symbol(i), Base64.Symbol(j), Base64.Symbol(k), Base64.Symbol(l)] + Base64.Encode(rest);
  }

  /** A byte left over is padded with zero bits to two symbols, and with "=" to four. */
  lemma {:induction false} OneLeftIsPadded(a: Byte) returns (i: Base64.Sextet, j: Base64.Sextet)
    ensures i * 64 + j == a * 16
    ensures Base64.Encode([a]) == [ALPHABET[i] as int, ALPHABET[j] as int, '=' as int, '=' as int]
  {
    i, j := a / 4, a % 4 * 16;
    Alphabet(i);
    Alphabet(j);
    hide Base64.Symbol;
  }

  /** Two bytes left over are padded to three symbols, and with one "=" to four. */
  lemma {:induction false} TwoLeftArePadded(a: Byte, b: Byte)
    returns (i: Base64.Sextet, j: Base64.Sextet, k: Base64.Sextet)
    ensures (i * 64 + j) * 64 + k == (a * 256 + b) * 4
    ensures Base64.Encode([a, b]) == [ALPHABET[i] as int, ALPHABET[j] as int, ALPHABET[k] as int, '=' as int]
  {
    i, j, k := a / 4, a % 4 * 16 + b / 16, b % 16 * 4;
    Alphabet(i);
    Alphabet(j);
    Alphabet(k);
    hide Base64.Symbol;
  }

  /** The first example of section 7 of RFC 3629. */
  lemma {:induction false} Utf8Example()
    ensures Utf8.EncodeAll([0x41, 0x2262, 0x0391, 0x2E]) == [0x41, 0xE2, 0x89, 0xA2, 0xCE, 0x91, 0x2E]
    ensures Utf8.Encode(0x233B4) == [0xF0, 0xA3, 0x8E, 0xB4]
  {
    var cs: seq<Utf8.Scalar> := [0x41, 0x2262, 0x0391, 0x2E];
    assert cs[1..] == [0x2262, 0x0391, 0x2E] && cs[1..][1..] == [0x0391, 0x2E] && cs[1..][1..][1..] == [0x2E];
    assert Utf8.EncodeAll([0x2E]) == [0x2E] by {
      assert [0x2E][1..] == [];
    }
    assert Utf8.EncodeAll([0x0391, 0x2E]) == [0xCE, 0x91] + [0x2E];
    assert Utf8.EncodeAll([0x2262, 0x0391, 0x2E]) == [0xE2, 0x89, 0xA2] + [0xCE, 0x91, 0x2E];
  }

  // What unmasking makes of one field

  /** A structure with one string field: text is the payload, data is decoded, anything else has no body. */
  lemma {:induction false} UnmaskOneField(name: Bytes, value: Bytes)
    requires Utf8.Valid(name) && Utf8.Valid(value)
    ensures Unmask(OneField(name, value))
            == if name == BODY_TEXT then Ok(UnmaskedChunk(value, true, false))
               else if name == BODY_DATA && Base64.Decode(value).Some? then
                 Ok(UnmaskedChunk(Base64.Decode(value).value, true, false))
               else Err(HighLevelDataError)
  {
    hide StructureFromString, OneField, Base64.Decode, Utf8.Valid;
    OneFieldIsUtf8(name, value);
    if IsKnown(name) {
      ReadOneField(name, value);
    } else {
      ReadUnknownField(name, value);
    }
  }

  lemma {:induction false} ReadUnknownField(name: Bytes, value: Bytes)
    requires !IsKnown(name)
    ensures StructureFromString(OneField(name, value)) == Some(Fields(None, None))
  {
    hide ReadMembers, FlatMap, EscapeByte;
    var s := OneField(name, value);
    var inner := Quote(name) + ([COLON] + (Quote(value) + [CLOSE_BRACE]));
    assert s[1..] == inner;
    assert SkipSpace(s) == s && SkipSpace(inner) == inner;
    assert SkipSpace([CLOSE_BRACE]) == [CLOSE_BRACE] && [CLOSE_BRACE][1..] == [];
    ReadFirstMember(name, value, [CLOSE_BRACE], Fields(None, None));
  }

  /** What is not UTF-8, and what is no JSON object, each has its own error. */
  lemma {:induction false} UnmaskRefuses(item: Bytes)
    ensures Unmask(item) == Err(LowLevelDataError) <==> !Utf8.Valid(item)
    ensures Unmask(item) == Err(MidLevelDataError) <==> Utf8.Valid(item) && StructureFromString(item) == None
  {
    hide StructureFromString, Utf8.Valid, Base64.Decode;
  }
}
