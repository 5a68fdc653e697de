/** Which byte strings are UTF-8 (section 4 of RFC 3629). */
module Utf8 {
  import opened Basics

  predicate Continuation(b: Byte) {
    0x80 <= b <= 0xBF
  }

  /** The length of the well-formed character at the front of `s`; 0 when there is none. */
  function CharLen(s: Bytes): (n: nat)
    ensures n <= |s| && n <= 4
  {
    if s == [] then 0
    else if s[0] <= 0x7F then 1
    else if |s| >= 2 && 0xC2 <= s[0] <= 0xDF && Continuation(s[1]) then 2
    else if |s| >= 3 && Continuation(s[1]) && Continuation(s[2])
            && ((s[0] == 0xE0 && s[1] >= 0xA0) || 0xE1 <= s[0] <= 0xEC
                || (s[0] == 0xED && s[1] <= 0x9F) || 0xEE <= s[0] <= 0xEF) then 3
    else if |s| >= 4 && Continuation(s[1]) && Continuation(s[2]) && Continuation(s[3])
            && ((s[0] == 0xF0 && s[1] >= 0x90) || 0xF1 <= s[0] <= 0xF3
                || (s[0] == 0xF4 && s[1] <= 0x8F)) then 4
    else 0
  }

  predicate Valid(s: Bytes) {
    s == [] || (CharLen(s) > 0 && Valid(s[CharLen(s)..]))
  }

  /** The encoding of a scalar value (Unicode code point that is not a surrogate). */
  function Encode(c: nat): Bytes
    requires c < 0x110000
  {
    if c < 0x80 then [c]
    else if c < 0x800 then [0xC0 + c / 0x40, 0x80 + c % 0x40]
    else if c < 0x10000 then [0xE0 + c / 0x1000, 0x80 + c / 0x40 % 0x40, 0x80 + c % 0x40]
    else [0xF0 + c / 0x40000, 0x80 + c / 0x1000 % 0x40, 0x80 + c / 0x40 % 0x40, 0x80 + c % 0x40]
  }

  ghost predicate Ascii(s: Bytes) {
    forall i :: 0 <= i < |s| ==> s[i] < 0x80
  }

  lemma {:induction false} AsciiIsValid(s: Bytes)
    requires Ascii(s)
    ensures Valid(s)
  {
    if s == [] {
    } else {
      AsciiIsValid(s[1..]);
    }
  }

  lemma {:induction false} CharLenOfPrefix(s: Bytes, t: Bytes)
    requires CharLen(s) > 0
    ensures CharLen(s[..CharLen(s)] + t) == CharLen(s)
  {
  }

  lemma {:induction false} ValidStep(s: Bytes, n: nat)
    requires 0 < n == CharLen(s) && Valid(s[n..])
    ensures Valid(s)
  {
  }

  lemma {:induction false} ConcatIsValid(a: Bytes, b: Bytes)
    requires Valid(a) && Valid(b)
    ensures Valid(a + b)
  {
    hide CharLen;
    if a == [] {
      assert a + b == b;
    } else {
      var n := CharLen(a);
      var rest := a[n..] + b;
      ConcatIsValid(a[n..], b);
      CharLenOfPrefix(a, rest);
      assert (a[..n] + rest)[n..] == rest;
      ValidStep(a[..n] + rest, n);
      assert a + b == a[..n] + rest;
    }
  }

  /** The front character on its own is valid UTF-8. */
  lemma {:induction false} CharIsValid(s: Bytes)
    requires CharLen(s) > 0
    ensures Valid(s[..CharLen(s)])
  {
    var c := s[..CharLen(s)];
    CharLenOfPrefix(s, []);
    assert c + [] == c && c[|c|..] == [];
  }

  // Valid means: the encoding of some scalar values

  /** Code points other than surrogates. */
  type Scalar = c: int | 0 <= c < 0xD800 || 0xE000 <= c < 0x110000

  ghost function EncodeAll(cs: seq<Scalar>): Bytes {
    if cs == [] then [] else Encode(cs[0]) + EncodeAll(cs[1..])
  }

  lemma {:induction false} EncodeIsChar(c: Scalar)
    ensures Valid(Encode(c))
  {
    var e := Encode(c);
    assert e[|e|..] == [];
    if c < 0x80 {
      assert CharLen(e) == 1;
    } else if c < 0x800 {
      assert CharLen(e) == 2;
    } else if c < 0x10000 {
      assert CharLen(e) == 3;
    } else {
      assert CharLen(e) == 4;
    }
  }

  lemma {:induction false} EncodeAllIsValid(cs: seq<Scalar>)
    ensures Valid(EncodeAll(cs))
  {
    if cs == [] {
    } else {
      hide CharLen, Encode;
      EncodeIsChar(cs[0]);
      EncodeAllIsValid(cs[1..]);
      ConcatIsValid(Encode(cs[0]), EncodeAll(cs[1..]));
    }
  }

  lemma SixBitDigits(x: nat, y: nat, z: nat, w: nat)
    requires y < 0x40 && z < 0x40 && w < 0x40
    ensures var c := x * 0x40000 + y * 0x1000 + z * 0x40 + w;
            c / 0x40000 == x && c / 0x1000 == x * 0x40 + y && c / 0x1000 % 0x40 == y
            && c / 0x40 == x * 0x1000 + y * 0x40 + z && c / 0x40 % 0x40 == z && c % 0x40 == w
  {
    var t := x * 0x40 + y;
    var u := t * 0x40 + z;
    assert u / 0x40 == t && u % 0x40 == z;
    var c := u * 0x40 + w;
    assert c / 0x40 == u && c % 0x40 == w;
  }

  lemma {:induction false} DecodeChar(s: Bytes) returns (c: Scalar)
    requires CharLen(s) > 0
    ensures Encode(c) == s[..CharLen(s)]
  {
    var n := CharLen(s);
    var a: int := s[0];
    if n == 1 {
      c := a;
    } else if n == 2 {
      c := DecodeTwo(s[0], s[1]);
    } else if n == 3 {
      c := DecodeThree(s[0], s[1], s[2]);
    } else {
      c := DecodeFour(s[0], s[1], s[2], s[3]);
    }
  }

  lemma {:induction false} DecodeTwo(a: int, b: int) returns (c: Scalar)
    requires 0xC2 <= a <= 0xDF && 0x80 <= b <= 0xBF
    ensures Encode(c) == [a, b]
  {
    SixBitDigits(0, 0, a - 0xC0, b - 0x80);
    c := (a - 0xC0) * 0x40 + (b - 0x80);
  }

  lemma {:induction false} DecodeThree(a: int, b: int, d: int) returns (c: Scalar)
    requires 0xE0 <= a <= 0xEF && 0x80 <= b <= 0xBF && 0x80 <= d <= 0xBF
    requires (a == 0xE0 ==> b >= 0xA0) && (a == 0xED ==> b <= 0x9F)
    ensures Encode(c) == [a, b, d]
  {
    SixBitDigits(0, a - 0xE0, b - 0x80, d - 0x80);
    c := (a - 0xE0) * 0x1000 + (b - 0x80) * 0x40 + (d - 0x80);
  }

  lemma {:induction false} DecodeFour(a: int, b: int, d: int, e: int) returns (c: Scalar)
    requires 0xF0 <= a <= 0xF4 && 0x80 <= b <= 0xBF && 0x80 <= d <= 0xBF && 0x80 <= e <= 0xBF
    requires (a == 0xF0 ==> b >= 0x90) && (a == 0xF4 ==> b <= 0x8F)
    ensures Encode(c) == [a, b, d, e]
  {
    SixBitDigits(a - 0xF0, b - 0x80, d - 0x80, e - 0x80);
    c := (a - 0xF0) * 0x40000 + (b - 0x80) * 0x1000 + (d - 0x80) * 0x40 + (e - 0x80);
  }

  /** A byte string is valid exactly when it is the encoding of a sequence of Unicode scalar values. */
  lemma {:induction false} ValidIsEncoding(s: Bytes) returns (cs: seq<Scalar>)
    requires Valid(s)
    ensures EncodeAll(cs) == s
  {
    hide Encode, CharLen;
    if s == [] {
      cs := [];
    } else {
      var n := CharLen(s);
      var c := DecodeChar(s);
      var rest := ValidIsEncoding(s[n..]);
      cs := [c] + rest;
      assert cs[1..] == rest;
      assert s == s[..n] + s[n..];
    }
  }
}

/** Base64 with padding (section 4 of RFC 4648). */
module Base64 {
  import opened Basics
  import opened Utf8

  type Sextet = v: int | 0 <= v < 64

  const PAD: Byte := 61

  function Symbol(v: Sextet): Byte {
    if v < 26 then 65 + v else if v < 52 then 71 + v else if v < 62 then v - 4 else if v == 62 then 43 else 47
  }

  function Index(b: Byte): (r: Option<int>)
    ensures r.Some? ==> 0 <= r.value < 64 && Symbol(r.value) == b
  {
    if 65 <= b <= 90 then Some(b - 65)
    else if 97 <= b <= 122 then Some(b - 71)
    else if 48 <= b <= 57 then Some(b + 4)
    else if b == 43 then Some(62) else if b == 47 then Some(63) else None
  }

  function Encode(s: Bytes): Bytes {
    if s == [] then []
    else if |s| == 1 then [Symbol(s[0] / 4), Symbol(s[0] % 4 * 16), PAD, PAD]
    else if |s| == 2 then [Symbol(s[0] / 4), Symbol(s[0] % 4 * 16 + s[1] / 16), Symbol(s[1] % 16 * 4), PAD]
    else [Symbol(s[0] / 4), Symbol(s[0] % 4 * 16 + s[1] / 16),
          Symbol(s[1] % 16 * 4 + s[2] / 64), Symbol(s[2] % 64)] + Encode(s[3..])
  }

  /** Decodes one group of four symbols; padding is allowed only in the final group. */
  function DecodeGroup(a: Byte, b: Byte, c: Byte, d: Byte, final: bool): Option<Bytes> {
    match (Index(a), Index(b), Index(c), Index(d))
    case (Some(i), Some(j), Some(k), Some(l)) =>
      Some([i * 4 + j / 16, j % 16 * 16 + k / 4, k % 4 * 64 + l])
    case (Some(i), Some(j), Some(k), None) =>
      if final && d == PAD && k % 4 == 0 then Some([i * 4 + j / 16, j % 16 * 16 + k / 4]) else None
    case (Some(i), Some(j), None, None) =>
      if final && c == PAD && d == PAD && j % 16 == 0 then Some([i * 4 + j / 16]) else None
    case _ => None
  }

  function Decode(s: Bytes): Option<Bytes> {
    if s == [] then Some([])
    else if |s| < 4 then None
    else
      match (DecodeGroup(s[0], s[1], s[2], s[3], |s| == 4), Decode(s[4..]))
      case (Some(front), Some(back)) => Some(front + back)
      case _ => None
  }

  lemma SymbolIndex(v: Sextet)
    ensures Index(Symbol(v)) == Some(v)
  {
  }

  lemma {:induction false} DecodeEncode(s: Bytes)
    ensures Decode(Encode(s)) == Some(s)
  {
    hide Symbol, DecodeGroup;
    if s == [] {
    } else {
      var e := Encode(s);
      if |s| > 2 {
        GroupOfThree(s[0], s[1], s[2], |e| == 4);
        DecodeEncode(s[3..]);
        assert e[4..] == Encode(s[3..]);
        assert [s[0], s[1], s[2]] + s[3..] == s;
      } else {
        assert e[4..] == [] && Decode(e[4..]) == Some([]);
        if |s| == 2 {
          assert s == [s[0], s[1]];
          GroupOfTwo(s[0], s[1]);
        } else {
          assert s == [s[0]];
          GroupOfOne(s[0]);
        }
        assert DecodeGroup(e[0], e[1], e[2], e[3], true) == Some(s);
        assert s + [] == s;
      }
    }
  }

  lemma GroupOfThree(a: Byte, b: Byte, c: Byte, final: bool)
    ensures DecodeGroup(Symbol(a / 4), Symbol(a % 4 * 16 + b / 16), Symbol(b % 16 * 4 + c / 64), Symbol(c % 64), final)
            == Some([a, b, c])
  {
    var i, j, k, l := a / 4, a % 4 * 16 + b / 16, b % 16 * 4 + c / 64, c % 64;
    assert j / 16 == a % 4 && j % 16 == b / 16 && k / 4 == b % 16 && k % 4 == c / 64;
    SymbolIndex(i);
    SymbolIndex(j);
    SymbolIndex(k);
    SymbolIndex(l);
  }

  lemma GroupOfTwo(a: Byte, b: Byte)
    ensures DecodeGroup(Symbol(a / 4), Symbol(a % 4 * 16 + b / 16), Symbol(b % 16 * 4), PAD, true) == Some([a, b])
  {
    SymbolIndex(a / 4);
    SymbolIndex(a % 4 * 16 + b / 16);
    SymbolIndex(b % 16 * 4);
  }

  lemma GroupOfOne(a: Byte)
    ensures DecodeGroup(Symbol(a / 4), Symbol(a % 4 * 16), PAD, PAD, true) == Some([a])
  {
    SymbolIndex(a / 4);
    SymbolIndex(a % 4 * 16);
  }

  /** The encoding is the only text that decodes to its payload. */
  lemma {:induction false} EncodeDecode(s: Bytes)
    requires Decode(s).Some?
    ensures Encode(Decode(s).value) == s
  {
    if s == [] {
    } else {
      hide Encode, DecodeGroup;
      var front := DecodeGroup(s[0], s[1], s[2], s[3], |s| == 4).value;
      var back := Decode(s[4..]).value;
      EncodeDecode(s[4..]);
      GroupDecodes(s[0], s[1], s[2], s[3], |s| == 4, back);
      assert s == [s[0], s[1], s[2], s[3]] + s[4..];
    }
  }

  lemma {:induction false} GroupDecodes(a: Byte, b: Byte, c: Byte, d: Byte, final: bool, back: Bytes)
    requires DecodeGroup(a, b, c, d, final).Some? && (final ==> back == [])
    ensures Encode(DecodeGroup(a, b, c, d, final).value + back) == [a, b, c, d] + Encode(back)
  {
    var s := DecodeGroup(a, b, c, d, final).value;
    Regroup(Index(a).value, Index(b).value,
            if Index(c).Some? then Index(c).value else 0, if Index(d).Some? then Index(d).value else 0);
    if Index(d).Some? {
      assert |s| == 3 && (s + back)[3..] == back;
      assert (s + back)[0] == s[0] && (s + back)[1] == s[1] && (s + back)[2] == s[2];
    } else {
      assert s + back == s;
    }
  }

  lemma Regroup(i: Sextet, j: Sextet, k: Sextet, l: Sextet)
    ensures var x, y, z := i * 4 + j / 16, j % 16 * 16 + k / 4, k % 4 * 64 + l;
            && x / 4 == i && x % 4 * 16 + y / 16 == j && y % 16 * 4 + z / 64 == k && z % 64 == l
            && (k == 0 && j % 16 == 0 ==> x % 4 * 16 == j)
            && (l == 0 && k % 4 == 0 ==> y % 16 * 4 == k)
  {
    assert (i * 4 + j / 16) / 4 == i;
    assert (j % 16 * 16 + k / 4) / 16 == j % 16;
    assert (k % 4 * 64 + l) / 64 == k % 4;
  }

  lemma {:induction false} EncodeIsAscii(s: Bytes)
    ensures Ascii(Encode(s))
  {
    if |s| > 2 {
      EncodeIsAscii(s[3..]);
    }
  }

  /** The four bytes of the repository's own example: 7B C0 7D C1 is "e8B9wQ==". */
  lemma {:induction false} EncodeExample()
    ensures Encode([0x7B, 0xC0, 0x7D, 0xC1]) == [101, 56, 66, 57, 119, 81, 61, 61]
  {
    assert [0x7B, 0xC0, 0x7D, 0xC1][3..] == [0xC1];
    assert Encode([0xC1]) == [119, 81, 61, 61];
  }
}
