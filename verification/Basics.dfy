/** Types and sequence functions that every component of the model shares. */
module Basics {

  type Byte = b: int | 0 <= b < 256
  type Bytes = seq<Byte>

  datatype Option<+T> = None | Some(value: T)

  datatype Result<+T, +E> = Ok(value: T) | Err(error: E)

  function Flatten<T>(parts: seq<seq<T>>): seq<T> {
    if parts == [] then [] else parts[0] + Flatten(parts[1..])
  }

  lemma {:induction false} FlattenConcat<T>(a: seq<seq<T>>, b: seq<seq<T>>)
    ensures Flatten(a + b) == Flatten(a) + Flatten(b)
  {
    if a == [] {
      assert a + b == b;
    } else {
      assert (a + b)[1..] == a[1..] + b;
      FlattenConcat(a[1..], b);
    }
  }

  function Map<A, B>(f: A -> B, s: seq<A>): (r: seq<B>)
    ensures |r| == |s|
  {
    if s == [] then [] else [f(s[0])] + Map(f, s[1..])
  }

  lemma {:induction false} MapConcat<A, B>(f: A -> B, a: seq<A>, b: seq<A>)
    ensures Map(f, a + b) == Map(f, a) + Map(f, b)
  {
    if a == [] {
      assert a + b == b;
    } else {
      assert (a + b)[1..] == a[1..] + b;
      MapConcat(f, a[1..], b);
    }
  }

  lemma {:induction false} MapAt<A, B>(f: A -> B, s: seq<A>, i: nat)
    requires i < |s|
    ensures Map(f, s)[i] == f(s[i])
  {
    if i == 0 {
    } else {
      MapAt(f, s[1..], i - 1);
    }
  }

  function FlatMap<A, B>(f: A -> seq<B>, s: seq<A>): seq<B> {
    if s == [] then [] else f(s[0]) + FlatMap(f, s[1..])
  }

  lemma {:induction false} FlatMapConcat<A, B>(f: A -> seq<B>, a: seq<A>, b: seq<A>)
    ensures FlatMap(f, a + b) == FlatMap(f, a) + FlatMap(f, b)
  {
    if a == [] {
      assert a + b == b;
    } else {
      assert (a + b)[1..] == a[1..] + b;
      FlatMapConcat(f, a[1..], b);
    }
  }

  /** The pieces of a text between separators; always at least one. */
  function Split(s: string, separator: char): (pieces: seq<string>)
    ensures pieces != []
  {
    if s == "" then [""]
    else
      var rest := Split(s[1..], separator);
      if s[0] == separator then [""] + rest else [[s[0]] + rest[0]] + rest[1..]
  }

  lemma {:induction false} SplitFront(front: string, rest: string)
    requires ',' !in front && (rest == "" || rest[0] == ',')
    ensures Split(front + rest, ',')[0] == front
  {
    if front == "" {
      assert front + rest == rest;
    } else {
      assert (front + rest)[1..] == front[1..] + rest;
      SplitFront(front[1..], rest);
    }
  }

  /** The first piece ends at the first separator, and the others are the pieces of what follows it. */
  lemma {:induction false} SplitParts(s: string)
    ensures var first := Split(s, ',')[0];
            && first <= s && ',' !in first
            && if |first| == |s| then Split(s, ',') == [s]
               else s[|first|] == ',' && Split(s, ',') == [first] + Split(s[|first| + 1..], ',')
  {
    if s == "" {
    } else if s[0] == ',' {
      assert Split(s, ',') == [""] + Split(s[1..], ',');
    } else {
      SplitParts(s[1..]);
      var rest := Split(s[1..], ',');
      var first := [s[0]] + rest[0];
      assert Split(s, ',') == [first] + rest[1..] && s == [s[0]] + s[1..];
      if |first| < |s| {
        assert s[1..][|rest[0]| + 1..] == s[|first| + 1..];
      }
    }
  }

  /** `x` stands in `s` at `i` between two separators, or the ends of `s`. */
  ghost predicate PieceAt(s: string, x: string, i: nat) {
    && i + |x| <= |s| && s[i..i + |x|] == x
    && (i == 0 || s[i - 1] == ',') && (i + |x| == |s| || s[i + |x|] == ',')
  }

  lemma {:induction false} InSplitIff(s: string, x: string)
    requires ',' !in x
    ensures x in Split(s, ',') <==> exists i :: PieceAt(s, x, i)
    decreases |s|
  {
    SplitParts(s);
    var first := Split(s, ',')[0];
    var more := if |first| < |s| then Split(s[|first| + 1..], ',') else [];
    assert x in Split(s, ',') <==> x == first || x in more;
    hide Split;
    if |first| < |s| {
      InSplitIff(s[|first| + 1..], x);
    }
    if x == first {
      assert s[0..|x|] == x;
      assert PieceAt(s, x, 0);
    } else if |first| < |s| && x in more {
      var i: nat :| PieceAt(s[|first| + 1..], x, i);
      PieceShifts(s, |first| + 1, x, i);
    }
    hide PieceAt;
    if i: nat :| PieceAt(s, x, i) {
      PieceIsListed(s, first, x, i);
    }
  }

  lemma {:induction false} PieceShifts(s: string, n: nat, x: string, i: nat)
    requires 0 < n <= |s| && s[n - 1] == ',' && PieceAt(s[n..], x, i)
    ensures PieceAt(s, x, n + i)
  {
    assert s[n..][i..i + |x|] == s[n + i..n + i + |x|];
  }

  lemma {:induction false} PieceIsListed(s: string, first: string, x: string, i: nat)
    requires ',' !in x && first <= s && ',' !in first && (|first| == |s| || s[|first|] == ',') && PieceAt(s, x, i)
    ensures x == first || (|first| < i && PieceAt(s[|first| + 1..], x, i - |first| - 1))
  {
    assert forall k :: 0 <= k < |first| ==> s[k] == first[k] && first[k] != ',';
    assert forall k :: 0 <= k < |x| ==> s[i + k] == x[k] && x[k] != ',';
    if i == 0 {
      assert |x| == |first|;
      assert s[..|x|] == x && s[..|first|] == first;
    } else {
      assert i > |first|;
      var rest := s[|first| + 1..];
      var j := i - |first| - 1;
      assert rest[j..j + |x|] == s[i..i + |x|];
      assert PieceAt(rest, x, j);
    }
  }
}
