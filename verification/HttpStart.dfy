/** The search for the start of a request in node/src/http_request_start_finder.rs. */
module HttpStart {
  import opened Basics

  /** GET, HEAD, POST, PUT, DELETE, CONNECT, OPTIONS, TRACE, PATCH */
  const METHODS: seq<Bytes> := [
    [71, 69, 84], [72, 69, 65, 68], [80, 79, 83, 84], [80, 85, 84], [68, 69, 76, 69, 84, 69],
    [67, 79, 78, 78, 69, 67, 84], [79, 80, 84, 73, 79, 78, 83], [84, 82, 65, 67, 69], [80, 65, 84, 67, 72]]
  const LONGEST_METHOD_LEN := 7

  const NAMES := ["GET", "HEAD", "POST", "PUT", "DELETE", "CONNECT", "OPTIONS", "TRACE", "PATCH"]

  /** The bytes are those of the names, and no name is longer than seven. */
  lemma MethodNames(k: nat)
    requires k < |NAMES|
    ensures |METHODS| == |NAMES| && |METHODS[k]| == |NAMES[k]| <= LONGEST_METHOD_LEN
    ensures forall i :: 0 <= i < |NAMES[k]| ==> METHODS[k][i] == NAMES[k][i] as int
  {
  }

  predicate OccursAt(s: Bytes, needle: Bytes, i: nat) {
    i + |needle| <= |s| && forall d :: 0 <= d < |needle| ==> s[i + d] == needle[d]
  }

  ghost predicate MethodAt(s: Bytes, i: nat) {
    exists k :: 0 <= k < |METHODS| && OccursAt(s, METHODS[k], i)
  }

  /** `i` is the offset of the leftmost method in `s`; None means that there is none. */
  ghost predicate IsLeftmost(s: Bytes, i: Option<nat>) {
    && (i.Some? ==> MethodAt(s, i.value))
    && forall j: nat :: (i.None? || j < i.value) ==> !MethodAt(s, j)
  }

  method IndexOf(haystack: Bytes, needle: Bytes) returns (r: Option<nat>)
    ensures needle == [] ==> r == None
    ensures r.Some? ==> OccursAt(haystack, needle, r.value)
    ensures needle != [] ==> forall j: nat :: (r.None? || j < r.value) ==> !OccursAt(haystack, needle, j)
  {
    if needle == [] {
      return None;
    }
    for h := 0 to |haystack|
      invariant forall j: nat :: j < h ==> !OccursAt(haystack, needle, j)
    {
      var n := 0;
      while n < |needle| && h + n < |haystack| && haystack[h + n] == needle[n]
        invariant 0 <= n <= |needle| && h + n <= |haystack|
        invariant forall d :: 0 <= d < n ==> haystack[h + d] == needle[d]
      {
        n := n + 1;
      }
      if n == |needle| {
        return Some(h);
      }
    }
    r := None;
  }

  datatype PacketProgressState = SeekingPacketStart | SeekingBodyStart | SeekingBodyEnd

  class HttpFramerState {
    var dataSoFar: Bytes
    var packetProgressState: PacketProgressState
    var contentLength: nat
    var lines: seq<Bytes>

    constructor ()
      ensures dataSoFar == [] && packetProgressState == SeekingPacketStart
    {
      dataSoFar, packetProgressState, contentLength, lines := [], SeekingPacketStart, 0, [];
    }

    /** The smallest of the methods' first offsets is the offset of the leftmost method. */
    method FirstMethodOffset() returns (offset: Option<nat>)
      ensures IsLeftmost(dataSoFar, offset)
    {
      offset := None;
      for k := 0 to |METHODS|
        invariant offset.Some? ==> MethodAt(dataSoFar, offset.value)
        invariant forall l, j: nat :: 0 <= l < k && (offset.None? || j < offset.value) ==> !OccursAt(dataSoFar, METHODS[l], j)
      {
        var i := IndexOf(dataSoFar, METHODS[k]);
        if i.Some? && (offset.None? || i.value < offset.value) {
          offset := i;
        }
      }
    }

    /**
     * Cuts the data at the leftmost method, or keeps only its last seven bytes, in which a method
     * may have begun. `dropped` is the number of bytes given up.
     */
    method SeekPacketStart() returns (found: bool, ghost dropped: nat)
      modifies this
      ensures old(packetProgressState) != SeekingPacketStart ==>
                !found && dropped == 0 && dataSoFar == old(dataSoFar)
                && packetProgressState == old(packetProgressState)
                && contentLength == old(contentLength) && lines == old(lines)
      ensures old(packetProgressState) == SeekingPacketStart ==>
                IsSeek(old(dataSoFar), found, dropped, dataSoFar)
                && packetProgressState == (if found then SeekingBodyStart else SeekingPacketStart)
      ensures found ==> contentLength == 0 && lines == []
      ensures !found ==> contentLength == old(contentLength) && lines == old(lines)
    {
      if packetProgressState != SeekingPacketStart {
        return false, 0;
      }
      var offset := FirstMethodOffset();
      if offset.Some? {
        dropped := offset.value;
        dataSoFar := dataSoFar[offset.value..];
        packetProgressState, contentLength, lines := SeekingBodyStart, 0, [];
        found := true;
      } else {
        var index := if |dataSoFar| > LONGEST_METHOD_LEN then |dataSoFar| - LONGEST_METHOD_LEN else 0;
        dropped := index;
        dataSoFar := dataSoFar[index..];
        found := false;
      }
    }
  }

  /** One search: what it finds, gives up and keeps. */
  ghost predicate IsSeek(data: Bytes, found: bool, dropped: nat, kept: Bytes) {
    && dropped <= |data| && kept == data[dropped..]
    && if found then IsLeftmost(data, Some(dropped))
       else IsLeftmost(data, None) && dropped == if |data| > LONGEST_METHOD_LEN then |data| - LONGEST_METHOD_LEN else 0
  }

  // The whole stream

  lemma {:induction false} ShiftOccurs(s: Bytes, needle: Bytes, base: nat, j: nat)
    requires base <= |s|
    ensures OccursAt(s[base..], needle, j) <==> OccursAt(s, needle, base + j)
  {
  }

  lemma {:induction false} MethodAtShift(s: Bytes, base: nat, j: nat)
    requires base <= |s|
    ensures MethodAt(s[base..], j) <==> MethodAt(s, base + j)
  {
    forall k | 0 <= k < |METHODS|
      ensures OccursAt(s[base..], METHODS[k], j) <==> OccursAt(s, METHODS[k], base + j)
    {
      ShiftOccurs(s, METHODS[k], base, j);
    }
  }

  lemma {:induction false} MethodLengths()
    ensures forall k :: 0 <= k < |METHODS| ==> 0 < |METHODS[k]| <= LONGEST_METHOD_LEN
  {
  }

  lemma {:induction false} OccursInPrefix(s: Bytes, t: Bytes, needle: Bytes, j: nat)
    ensures OccursAt(s, needle, j) ==> OccursAt(s + t, needle, j)
    ensures OccursAt(s + t, needle, j) && j + |needle| <= |s| ==> OccursAt(s, needle, j)
  {
  }

  /** A method that begins at least seven bytes before the end of the data is in the data already. */
  lemma {:induction false} MethodInPrefix(s: Bytes, t: Bytes, j: nat)
    ensures MethodAt(s, j) ==> MethodAt(s + t, j)
    ensures MethodAt(s + t, j) && j + LONGEST_METHOD_LEN <= |s| ==> MethodAt(s, j)
  {
    MethodLengths();
    hide OccursAt;
    forall k | 0 <= k < |METHODS|
      ensures OccursAt(s, METHODS[k], j) ==> OccursAt(s + t, METHODS[k], j)
      ensures OccursAt(s + t, METHODS[k], j) && j + |METHODS[k]| <= |s| ==> OccursAt(s, METHODS[k], j)
    {
      OccursInPrefix(s, t, METHODS[k], j);
    }
  }

  /** No method is a substring of another, nor of itself except as a whole. */
  lemma {:induction false} NoMethodInsideAnother(outer: nat, inner: nat, offset: nat)
    requires outer < |METHODS| && inner < |METHODS| && (offset > 0 || outer != inner)
    ensures !OccursAt(METHODS[outer], METHODS[inner], offset)
  {
    var n := METHODS[inner];
    var letters := [n[0], n[1], n[2]];
  }

  /** Once a method has been found leftmost, more data cannot put one before it. */
  lemma {:induction false} LeftmostIsStable(s: Bytes, t: Bytes, i: nat)
    requires IsLeftmost(s, Some(i))
    ensures IsLeftmost(s + t, Some(i))
  {
    MethodInPrefix(s, t, i);
    forall j: nat | j < i ensures !MethodAt(s + t, j) {
      forall outer | 0 <= outer < |METHODS| ensures !OccursAt(s + t, METHODS[outer], j) {
        assert !MethodAt(s, j);
        var inner :| 0 <= inner < |METHODS| && OccursAt(s, METHODS[inner], i);
        NotBefore(s, t, outer, inner, j, i);
      }
    }
  }

  lemma {:induction false} NotBefore(s: Bytes, t: Bytes, outer: nat, inner: nat, j: nat, i: nat)
    requires outer < |METHODS| && inner < |METHODS| && j < i
    requires OccursAt(s, METHODS[inner], i) && !OccursAt(s, METHODS[outer], j)
    ensures !OccursAt(s + t, METHODS[outer], j)
  {
    var m, n := METHODS[outer], METHODS[inner];
    var gap: nat := i - j;
    OccursInPrefix(s, t, m, j);
    assert OccursAt(s + t, m, j) ==> OccursAt(m, n, gap) by {
      assert forall d :: 0 <= d < |n| ==> s[i + d] == n[d] && (s + t)[j + (gap + d)] == s[i + d];
    }
    NoMethodInsideAnother(outer, inner, gap);
  }

  /** The finder while a stream arrives: bytes given up so far, data kept, and the start once found. */
  datatype Finder = Finder(base: nat, data: Bytes, start: Option<nat>)

  const FRESH := Finder(0, [], None)

  /** A chunk arrives, and the search is made if the start has not been found yet. */
  ghost predicate Step(before: Finder, chunk: Bytes, after: Finder) {
    if before.start.Some? then after == before.(data := before.data + chunk)
    else
      && after.base >= before.base
      && IsSeek(before.data + chunk, after.start.Some?, after.base - before.base, after.data)
      && (after.start.Some? ==> after.start.value == after.base)
  }

  ghost predicate IsRun(states: seq<Finder>, chunks: seq<Bytes>) {
    && |states| == |chunks| + 1
    && states[0] == FRESH
    && forall i :: 0 <= i < |chunks| ==> Step(states[i], chunks[i], states[i + 1])
  }

  /** What the finder knows about the stream so far. */
  ghost predicate Agrees(f: Finder, stream: Bytes) {
    && f.base <= |stream| && f.data == stream[f.base..]
    && IsLeftmost(stream, f.start)
    && match f.start
       case Some(i) => f.base == i
       case None => f.base == 0 || f.base + LONGEST_METHOD_LEN <= |stream|
  }

  /** The bytes given up hold no method, not even one that ends in the new chunk. */
  lemma {:induction false} LeftmostInWindow(stream: Bytes, chunk: Bytes, base: nat, found: Option<nat>)
    requires IsLeftmost(stream, None) && base <= |stream| && (base == 0 || base + LONGEST_METHOD_LEN <= |stream|)
    requires IsLeftmost((stream + chunk)[base..], found)
    ensures IsLeftmost(stream + chunk, if found.Some? then Some(base + found.value) else None)
  {
    hide MethodAt;
    var whole := stream + chunk;
    if found.Some? {
      MethodAtShift(whole, base, found.value);
    }
    forall j: nat | found.None? || j < base + found.value ensures !MethodAt(whole, j) {
      if j < base {
        MethodInPrefix(stream, chunk, j);
      } else {
        MethodAtShift(whole, base, j - base);
      }
    }
  }

  lemma {:induction false} StepAgrees(before: Finder, chunk: Bytes, after: Finder, stream: Bytes)
    requires Agrees(before, stream) && Step(before, chunk, after)
    ensures Agrees(after, stream + chunk)
  {
    hide IsLeftmost;
    var whole := stream + chunk;
    var data := before.data + chunk;
    assert whole[before.base..] == data;
    if before.start.Some? {
      LeftmostIsStable(stream, chunk, before.start.value);
    } else {
      var found := if after.start.Some? then Some(after.base - before.base) else None;
      LeftmostInWindow(stream, chunk, before.base, found);
      assert data[after.base - before.base..] == whole[after.base..];
    }
  }

  /**
   * For every stream and every way of cutting it, the start found is the offset of the leftmost
   * method in the whole stream, and the data kept from then on begins there; and nothing is found
   * only if the stream contains no method.
   */
  lemma {:induction false} FindsLeftmostMethod(states: seq<Finder>, chunks: seq<Bytes>)
    requires IsRun(states, chunks)
    ensures IsLeftmost(Flatten(chunks), states[|chunks|].start)
    ensures Agrees(states[|chunks|], Flatten(chunks))
    decreases |chunks|
  {
    if chunks == [] {
      assert forall j: nat :: !MethodAt([], j) by {
        MethodLengths();
      }
    } else {
      var n := |chunks| - 1;
      hide Step, Agrees;
      FindsLeftmostMethod(states[..n + 1], chunks[..n]);
      assert chunks == chunks[..n] + [chunks[n]];
      FlattenConcat(chunks[..n], [chunks[n]]);
      assert Flatten([chunks[n]]) == chunks[n];
      StepAgrees(states[n], chunks[n], states[n + 1], Flatten(chunks[..n]));
      AgreesMeans(states[n + 1], Flatten(chunks));
    }
  }

  lemma {:induction false} AgreesMeans(f: Finder, stream: Bytes)
    requires Agrees(f, stream)
    ensures IsLeftmost(stream, f.start)
  {
  }
}
