/**
 * The Linux DNS modifier of dns_utility/src/resolv_conf_dns_modifier.rs, which edits the text of
 * /etc/resolv.conf in place at offsets found by regular expressions.
 */
module ResolvConf {
  import opened Basics

  /** White space, as the expressions' `\s` means it; the newline is one. */
  predicate IsSpace(c: char) {
    var n := c as int;
    || 9 <= n <= 13 || n in {0x20, 0x85, 0xA0, 0x1680, 0x2028, 0x2029, 0x202F, 0x205F, 0x3000}
    || 0x2000 <= n <= 0x200A
  }

  const KEYWORD := "nameserver"
  const LOCALHOST := "127.0.0.1"

  function Strip(s: string): (r: string)
    ensures |r| <= |s|
    ensures r != "" ==> !IsSpace(r[0])
  {
    if s != "" && IsSpace(s[0]) then Strip(s[1..]) else s
  }

  function DropWord(s: string): (r: string)
    ensures |r| <= |s|
  {
    if s != "" && !IsSpace(s[0]) then DropWord(s[1..]) else s
  }

  // The expressions. Each is `(^|\n)\s*(...)`; a hit is the second group.

  datatype Pattern =
    | Active      // nameserver\s+[^\s]*
    | Existing    // #?\s*nameserver\s+[^\s]*
    | Prometheus  // nameserver\s+127\.0\.0\.1\n?

  datatype Hit = Hit(start: nat, end: nat)

  function Uncomment(pattern: Pattern, s: string): (r: string)
    ensures |r| <= |s|
  {
    if pattern == Existing && s != "" && s[0] == '#' then Strip(s[1..]) else s
  }

  /** What follows the matched argument, if there is an argument to match. */
  function AfterArgument(pattern: Pattern, s: string): (r: Option<string>)
    ensures r.Some? ==> |r.value| <= |s|
  {
    if pattern != Prometheus then Some(DropWord(s))
    else if !(LOCALHOST <= s) then None
    else if |s| > 9 && s[9] == '\n' then Some(s[10..]) else Some(s[9..])
  }

  /** What follows a match whose keyword, if any, is at the front of `u`. */
  function AfterKeyword(pattern: Pattern, u: string): (r: Option<string>)
    ensures r.Some? ==> |r.value| + 10 < |u|
  {
    if !(KEYWORD <= u) || |Strip(u[10..])| == |u[10..]| then None
    else AfterArgument(pattern, Strip(u[10..]))
  }

  /** Matches `\s*(...)` at the very front of `s`. */
  function Entry(pattern: Pattern, s: string): (r: Option<Hit>)
    ensures r.Some? ==> r.value.start < r.value.end <= |s|
  {
    var t := Strip(s);
    match AfterKeyword(pattern, Uncomment(pattern, t))
    case None => None
    case Some(after) => Some(Hit(|s| - |t|, |s| - |after|))
  }

  /** A matched entry and where it starts. */
  datatype Found = Found(text: string, start: nat)

  /** Hits that follow one another without overlap between two offsets. */
  ghost predicate InBounds(hits: seq<Found>, low: nat, high: nat) {
    hits == []
    || (&& low <= hits[0].start && hits[0].text != "" && hits[0].start + |hits[0].text| <= high
        && InBounds(hits[1..], hits[0].start + |hits[0].text|, high))
  }

  /**
   * All hits, leftmost first and without overlap. A match begins at the start of the text or at a
   * newline; `s` is what is left of the text from offset `offset` on.
   */
  function Scan(pattern: Pattern, s: string, atStart: bool, offset: nat): seq<Found>
    decreases |s|
  {
    var hit := if atStart || (s != "" && s[0] == '\n') then Entry(pattern, s) else None;
    if hit.Some? then
      [Found(s[hit.value.start..hit.value.end], offset + hit.value.start)]
      + Scan(pattern, s[hit.value.end..], false, offset + hit.value.end)
    else if s == "" then []
    else Scan(pattern, s[1..], false, offset + 1)
  }

  lemma {:induction false} ScanHit(pattern: Pattern, s: string, atStart: bool, offset: nat)
    requires (atStart || (s != "" && s[0] == '\n')) && Entry(pattern, s).Some?
    ensures var hit := Entry(pattern, s).value;
            Scan(pattern, s, atStart, offset)
            == [Found(s[hit.start..hit.end], offset + hit.start)] + Scan(pattern, s[hit.end..], false, offset + hit.end)
  {
    hide Entry;
  }

  lemma {:induction false} ScanMiss(pattern: Pattern, s: string, atStart: bool, offset: nat)
    requires (!atStart && (s == "" || s[0] != '\n')) || Entry(pattern, s) == None
    ensures Scan(pattern, s, atStart, offset) == if s == "" then [] else Scan(pattern, s[1..], false, offset + 1)
  {
    hide Entry;
  }

  lemma {:induction false} InBoundsWiden(hits: seq<Found>, lower: nat, low: nat, high: nat)
    requires InBounds(hits, low, high) && lower <= low
    ensures InBounds(hits, lower, high)
  {
  }

  lemma {:induction false} InBoundsCount(hits: seq<Found>, low: nat, high: nat)
    requires InBounds(hits, low, high) && low <= high
    ensures low + |hits| <= high
  {
    if hits == [] {
    } else {
      InBoundsCount(hits[1..], hits[0].start + |hits[0].text|, high);
    }
  }

  lemma {:induction false} ScanIsInBounds(pattern: Pattern, s: string, atStart: bool, offset: nat)
    ensures InBounds(Scan(pattern, s, atStart, offset), offset, offset + |s|)
    decreases |s|
  {
    hide Entry, Scan;
    var hit := if atStart || (s != "" && s[0] == '\n') then Entry(pattern, s) else None;
    if hit.Some? {
      ScanHit(pattern, s, atStart, offset);
      ScanIsInBounds(pattern, s[hit.value.end..], false, offset + hit.value.end);
    } else {
      ScanMiss(pattern, s, atStart, offset);
      if s != "" {
        ScanIsInBounds(pattern, s[1..], false, offset + 1);
        InBoundsWiden(Scan(pattern, s[1..], false, offset + 1), offset, offset + 1, offset + |s|);
      }
    }
  }

  function ActiveNameservers(contents: string): seq<Found> {
    Scan(Active, contents, true, 0)
  }

  function ExistingNameservers(contents: string): seq<Found> {
    Scan(Existing, contents, true, 0)
  }

  // Is an entry the local resolver?

  predicate IsDigit(c: char) {
    '0' <= c <= '9'
  }

  function DropDigits(s: string): (r: string)
    ensures |r| <= |s|
  {
    if s != "" && IsDigit(s[0]) then DropDigits(s[1..]) else s
  }

  /** `\d{1,3}\.` n times, then `\d{1,3}\s*(#|$)`. */
  predicate Octets(s: string, n: nat)
    decreases n
  {
    var r := DropDigits(s);
    && 1 <= |s| - |r| <= 3
    && if n == 0 then Strip(r) == "" || Strip(r)[0] == '#' else r != "" && r[0] == '.' && Octets(r[1..], n - 1)
  }

  /** What follows `nameserver\s+` at the front of `s`. */
  function Argument(s: string): Option<string> {
    if KEYWORD <= s && |Strip(s[10..])| < |s[10..]| then Some(Strip(s[10..])) else None
  }

  predicate SyntaxMatches(s: string) {
    || (Argument(s).Some? && Octets(Argument(s).value, 3))
    || (s != "" && SyntaxMatches(s[1..]))
  }

  predicate LocalhostMatches(s: string) {
    || (&& Argument(s).Some? && LOCALHOST <= Argument(s).value
        && var rest := Argument(s).value[9..]; rest == "" || rest[0] == '#' || IsSpace(rest[0]))
    || (s != "" && LocalhostMatches(s[1..]))
  }

  predicate IsPrometheusIp(entry: string) {
    SyntaxMatches(entry) && LocalhostMatches(entry)
  }

  // Subverting and reverting

  datatype Error = Disconnected | Nonsense | NothingToRevertTo

  datatype Edit = AddHash | RemoveChar

  function EditAt(edit: Edit, s: string, k: nat): string
    requires k < |s|
  {
    match edit
    case AddHash => s[..k] + "#" + s[k..]
    case RemoveChar => s[..k] + s[k + 1..]
  }

  /** The edits at all hits, last hit first, so that the earlier offsets stay right. */
  function EditDescending(edit: Edit, s: string, hits: seq<Found>): (r: string)
    requires InBounds(hits, 0, |s|)
    ensures |r| == if edit == AddHash then |s| + |hits| else |s| - |hits|
    decreases |hits|
  {
    if hits == [] then s
    else
      var end := hits[0].start + |hits[0].text|;
      InBoundsWiden(hits[1..], 0, end, |s|);
      InBoundsCount(hits[1..], end, |s|);
      EditAt(edit, EditDescending(edit, s, hits[1..]), hits[0].start)
  }

  function EditExisting(edit: Edit, contents: string): string {
    ScanIsInBounds(Existing, contents, true, 0);
    EditDescending(edit, contents, ExistingNameservers(contents))
  }

  /** "\nnameserver 127.0.0.1\n" */
  const SUFFIX := "\n" + KEYWORD + " " + LOCALHOST + "\n"

  function SubvertContents(contents: string): Result<string, Error> {
    var active := ActiveNameservers(contents);
    if active == [] then Err(Disconnected)
    else if IsPrometheusIp(active[0].text) then Ok(contents)
    else if exists i :: 0 <= i < |active| && IsPrometheusIp(active[i].text) then Err(Nonsense)
    else Ok(EditExisting(AddHash, contents) + SUFFIX)
  }

  function RemoveSpan(s: string, begin: nat, length: nat): string
    requires begin + length <= |s|
  {
    s[..begin] + s[begin + length..]
  }

  function RevertContents(contents: string): Result<string, Error> {
    var found := Scan(Prometheus, contents, true, 0);
    if found == [] then Ok(contents)
    else if |found| > 1 then Err(Nonsense)
    else
      ScanIsInBounds(Prometheus, contents, true, 0);
      var rest := RemoveSpan(contents, found[0].start, |found[0].text|);
      if ExistingNameservers(rest) == [] then Err(NothingToRevertTo) else Ok(EditExisting(RemoveChar, rest))
  }

  /** `[^\s#]*` */
  function UpToSpaceOrHash(s: string): string {
    if s == "" || IsSpace(s[0]) || s[0] == '#' then "" else [s[0]] + UpToSpaceOrHash(s[1..])
  }

  /** The source panics on a text that is not a nameserver entry; `inspect` never passes one. */
  function NameserverLineToIp(line: string): Option<string> {
    var arg := Argument(Strip(line));
    if arg.None? then None else Some(UpToSpaceOrHash(arg.value))
  }

  function IpLines(entries: seq<Found>): Option<string> {
    if entries == [] then Some("")
    else
      match (NameserverLineToIp(entries[0].text), IpLines(entries[1..]))
      case (Some(ip), Some(rest)) => Some(ip + "\n" + rest)
      case _ => None
  }

  function InspectContents(contents: string): Result<Option<string>, Error> {
    var active := ActiveNameservers(contents);
    if active == [] then Err(Disconnected) else Ok(IpLines(active))
  }

  datatype Status = Subverted | Reverted

  /** The verdict of dns_utility/src/dns_utility.rs on an inspection. */
  function StatusFromInspect(ips: string): Status {
    if ips == LOCALHOST + "\n" then Subverted else Reverted
  }

  /** Inserts or removes in place, over the offsets in reverse. */
  method EditInPlace(edit: Edit, contents: string, hits: seq<Found>) returns (after: string)
    requires InBounds(hits, 0, |contents|)
    ensures after == EditDescending(edit, contents, hits)
  {
    after := contents;
    var i := |hits|;
    while i > 0
      invariant 0 <= i <= |hits| && InBounds(hits[i..], 0, |contents|)
      invariant after == EditDescending(edit, contents, hits[i..])
    {
      i := i - 1;
      SuffixInBounds(hits, i, |contents|);
      assert hits[i..][1..] == hits[i + 1..] && hits[i..][0] == hits[i];
      InBoundsCount(hits[i + 1..], hits[i].start + |hits[i].text|, |contents|);
      after := EditAt(edit, after, hits[i].start);
    }
    assert hits[0..] == hits;
  }

  lemma {:induction false} SuffixInBounds(hits: seq<Found>, i: nat, high: nat)
    requires InBounds(hits, 0, high) && i <= |hits|
    ensures InBounds(hits[i..], 0, high)
  {
    if i > 0 {
      SuffixInBounds(hits, i - 1, high);
      assert hits[i - 1..][1..] == hits[i..];
      var first := hits[i - 1];
      InBoundsWiden(hits[i..], 0, first.start + |first.text|, high);
    } else {
      assert hits[0..] == hits;
    }
  }

  method Subvert(contents: string) returns (result: Result<string, Error>)
    ensures result == SubvertContents(contents)
  {
    hide Scan, IsPrometheusIp, InBounds, EditDescending;
    var active := ActiveNameservers(contents);
    if active == [] {
      return Err(Disconnected);
    }
    if IsPrometheusIp(active[0].text) {
      return Ok(contents);
    }
    if exists i :: 0 <= i < |active| && IsPrometheusIp(active[i].text) {
      return Err(Nonsense);
    }
    ScanIsInBounds(Existing, contents, true, 0);
    var after := EditInPlace(AddHash, contents, ExistingNameservers(contents));
    result := Ok(after + SUFFIX);
  }

  method Revert(contents: string) returns (result: Result<string, Error>)
    ensures result == RevertContents(contents)
  {
    hide Scan, EditDescending;
    var found := Scan(Prometheus, contents, true, 0);
    if found == [] {
      return Ok(contents);
    }
    if |found| > 1 {
      return Err(Nonsense);
    }
    ScanIsInBounds(Prometheus, contents, true, 0);
    var rest := RemoveSpan(contents, found[0].start, |found[0].text|);
    var existing := ExistingNameservers(rest);
    ScanIsInBounds(Existing, rest, true, 0);
    if existing == [] {
      return Err(NothingToRevertTo);
    }
    var after := EditInPlace(RemoveChar, rest, existing);
    result := Ok(after);
  }

  // Lines

  function Unlines(lines: seq<string>): string
    requires lines != []
  {
    if |lines| == 1 then lines[0] else lines[0] + "\n" + Unlines(lines[1..])
  }

  function Lines(contents: string): seq<string> {
    Split(contents, '\n')
  }

  lemma {:induction false} UnlinesLines(contents: string)
    ensures Lines(contents) != [] && Unlines(Lines(contents)) == contents
    ensures forall i :: 0 <= i < |Lines(contents)| ==> '\n' !in Lines(contents)[i]
  {
    if contents == "" {
    } else {
      UnlinesLines(contents[1..]);
      var rest := Lines(contents[1..]);
      if contents[0] == '\n' {
        assert Lines(contents)[1..] == rest;
      } else {
        assert Lines(contents)[1..] == rest[1..];
      }
    }
  }

  /**
   * A line on which the expressions see what a reader sees: a keyword at its front, commented or
   * not, has an argument on the same line, and the line is not a bare hash sign.
   */
  predicate Regular(line: string) {
    var t := Strip(line);
    var u := Uncomment(Existing, t);
    '\n' !in line && (t != "" && t[0] == '#' ==> u != "") && HasArgument(u)
  }

  predicate HasArgument(u: string) {
    KEYWORD <= u && (|u| == 10 || IsSpace(u[10])) ==> Strip(u[10..]) != ""
  }

  predicate RegularFile(contents: string) {
    forall i :: 0 <= i < |Lines(contents)| ==> Regular(Lines(contents)[i])
  }

  /** What can follow a line. */
  predicate LineEnd(rest: string) {
    rest == "" || rest[0] == '\n'
  }

  lemma {:induction false} StripAppend(a: string, b: string)
    ensures Strip(a + b) == if Strip(a) != "" then Strip(a) + b else Strip(b)
  {
    if a == "" {
      assert a + b == b;
    } else if IsSpace(a[0]) {
      assert (a + b)[1..] == a[1..] + b;
      StripAppend(a[1..], b);
    }
  }

  lemma {:induction false} DropWordAppend(a: string, b: string)
    requires LineEnd(b)
    ensures DropWord(a + b) == DropWord(a) + b
  {
    if a == "" {
      assert a + b == b;
    } else if !IsSpace(a[0]) {
      assert (a + b)[1..] == a[1..] + b;
      DropWordAppend(a[1..], b);
    }
  }

  lemma {:induction false} KeywordAppend(u: string, rest: string)
    requires LineEnd(rest)
    ensures KEYWORD <= u + rest <==> KEYWORD <= u
  {
    assert '\n' !in KEYWORD;
    if |u| < 10 && rest != "" {
      assert (u + rest)[|u|] == '\n';
    }
  }

  lemma {:induction false} AfterKeywordIsLocal(pattern: Pattern, u: string, rest: string)
    requires pattern != Prometheus && HasArgument(u) && LineEnd(rest)
    ensures var after := AfterKeyword(pattern, u);
            AfterKeyword(pattern, u + rest) == if after.None? then None else Some(after.value + rest)
  {
    KeywordAppend(u, rest);
    if KEYWORD <= u {
      assert (u + rest)[10..] == u[10..] + rest;
      StripAppend(u[10..], rest);
      DropWordAppend(Strip(u[10..]), rest);
    }
  }

  lemma {:induction false} UncommentIsLocal(pattern: Pattern, t: string, rest: string)
    requires t != "" && (t[0] == '#' ==> Strip(t[1..]) != "")
    ensures Uncomment(pattern, t + rest) == Uncomment(pattern, t) + rest
  {
    assert (t + rest)[1..] == t[1..] + rest;
    StripAppend(t[1..], rest);
  }

  /** On a regular line that is not blank, a match does not depend on the lines below. */
  lemma {:induction false} EntryIsLocal(pattern: Pattern, line: string, rest: string)
    requires pattern != Prometheus && Regular(line) && LineEnd(rest) && Strip(line) != ""
    ensures Entry(pattern, line + rest) == Entry(pattern, line)
  {
    var t := Strip(line);
    assert t[0] == '#' ==> !(KEYWORD <= t);
    hide Strip, AfterKeyword, AfterArgument;
    StripAppend(line, rest);
    UncommentIsLocal(pattern, t, rest);
    AfterKeywordIsLocal(pattern, Uncomment(pattern, t), rest);
  }

  /** On a blank line the match is the one of the lines below. */
  lemma {:induction false} EntrySkipsBlank(pattern: Pattern, line: string, rest: string)
    requires Strip(line) == ""
    ensures var below := Entry(pattern, rest);
            Entry(pattern, line + rest)
            == if below.None? then None else Some(Hit(|line| + below.value.start, |line| + below.value.end))
    ensures Entry(pattern, line) == None
  {
    StripAppend(line, rest);
  }

  /** No line below can turn a line into a match of the local resolver. */
  lemma {:induction false} PrometheusIsLocal(line: string, rest: string)
    requires Regular(line) && LineEnd(rest) && Strip(line) != "" && Entry(Prometheus, line) == None
    ensures Entry(Prometheus, line + rest) == None
  {
    var t := Strip(line);
    assert KEYWORD <= t ==> t[0] == 'n' && HasArgument(t);
    hide Regular, Strip, IsSpace;
    StripAppend(line, rest);
    KeywordAppend(t, rest);
    if KEYWORD <= t {
      var arg := t[10..];
      assert (t + rest)[10..] == arg + rest;
      StripAppend(arg, rest);
      LocalhostAppend(Strip(arg), rest);
    }
  }

  lemma {:induction false} LocalhostAppend(u: string, rest: string)
    requires LineEnd(rest)
    ensures LOCALHOST <= u + rest <==> LOCALHOST <= u
  {
    assert '\n' !in LOCALHOST;
    if |u| < 9 && rest != "" {
      assert (u + rest)[|u|] == '\n';
    }
  }

  lemma {:induction false} PrometheusIsActive(s: string)
    ensures Entry(Prometheus, s).Some? ==> Entry(Active, s).Some?
  {
  }

  // Scanning line by line

  lemma {:induction false} ScanSkipsWithinLine(pattern: Pattern, line: string, rest: string, offset: nat)
    requires '\n' !in line
    ensures Scan(pattern, line + rest, false, offset) == Scan(pattern, rest, false, offset + |line|)
    decreases |line|
  {
    hide Scan, Entry;
    if line == "" {
      assert line + rest == rest;
    } else {
      assert line[0] != '\n' && (line + rest)[0] == line[0] && (line + rest)[1..] == line[1..] + rest;
      ScanMiss(pattern, line + rest, false, offset);
      ScanSkipsWithinLine(pattern, line[1..], rest, offset + 1);
    }
  }

  /** Blank text in front of a place where a match may begin makes no difference. */
  lemma {:induction false} ScanSkipsBlank(pattern: Pattern, blank: string, s: string, atStart: bool, offset: nat)
    requires Strip(blank) == "" && Entry(pattern, s).Some?
    requires atStart || (s != "" && s[0] == '\n')
    ensures Scan(pattern, blank + s, true, offset) == Scan(pattern, s, atStart, offset + |blank|)
  {
    hide Scan, Entry, Strip;
    EntrySkipsBlank(pattern, blank, s);
    ScanHit(pattern, s, atStart, offset + |blank|);
    ScanHit(pattern, blank + s, true, offset);
    var hit := Entry(pattern, s).value;
    assert (blank + s)[|blank| + hit.start..|blank| + hit.end] == s[hit.start..hit.end];
    assert (blank + s)[|blank| + hit.end..] == s[hit.end..];
  }

  lemma {:induction false} ScanNewline(pattern: Pattern, s: string, offset: nat)
    ensures Scan(pattern, "\n" + s, false, offset) == Scan(pattern, s, true, offset + 1)
  {
    hide Scan, Entry;
    assert Strip("\n") == Strip("\n"[1..]) == "";
    EntrySkipsBlank(pattern, "\n", s);
    if Entry(pattern, s).Some? {
      ScanHit(pattern, "\n" + s, false, offset);
      ScanHit(pattern, "\n" + s, true, offset);
      ScanSkipsBlank(pattern, "\n", s, true, offset);
    } else {
      ScanMiss(pattern, "\n" + s, false, offset);
      assert ("\n" + s)[1..] == s;
      ScanMiss(pattern, s, true, offset + 1);
      ScanMiss(pattern, s, false, offset + 1);
    }
  }

  /** A line with no match of its own only hands the scan on to the lines below. */
  lemma {:induction false} ScanPassesLine(pattern: Pattern, line: string, rest: string, offset: nat)
    requires '\n' !in line && LineEnd(rest)
    requires Strip(line) != "" ==> Entry(pattern, line + rest) == None
    ensures Scan(pattern, line + rest, true, offset) == Scan(pattern, rest, false, offset + |line|)
  {
    hide Scan, Strip, Entry;
    if Strip(line) == "" && Entry(pattern, rest).Some? {
      EntryOfNothing(pattern);
      ScanSkipsBlank(pattern, line, rest, false, offset);
    } else {
      if Strip(line) == "" {
        EntrySkipsBlank(pattern, line, rest);
      }
      ScanWithoutEntry(pattern, line, rest, offset);
    }
  }

  lemma EntryOfNothing(pattern: Pattern)
    ensures Entry(pattern, "") == None
  {
  }

  lemma {:induction false} ScanWithoutEntry(pattern: Pattern, line: string, rest: string, offset: nat)
    requires '\n' !in line && LineEnd(rest) && Entry(pattern, line + rest) == None
    ensures Scan(pattern, line + rest, true, offset) == Scan(pattern, rest, false, offset + |line|)
  {
    hide Entry, Scan;
    ScanMiss(pattern, line + rest, true, offset);
    ScanMiss(pattern, line + rest, false, offset);
    ScanSkipsWithinLine(pattern, line, rest, offset);
  }

  function LineHit(pattern: Pattern, line: string, offset: nat): seq<Found> {
    match Entry(pattern, line)
    case None => []
    case Some(hit) => [Found(line[hit.start..hit.end], offset + hit.start)]
  }

  lemma {:induction false} ScanLine(pattern: Pattern, line: string, rest: string, offset: nat)
    requires pattern != Prometheus && Regular(line) && LineEnd(rest)
    ensures Scan(pattern, line + rest, true, offset)
            == LineHit(pattern, line, offset) + Scan(pattern, rest, false, offset + |line|)
  {
    hide Scan, Entry, Strip;
    if Strip(line) == "" {
      EntrySkipsBlank(pattern, line, rest);
      ScanPassesLine(pattern, line, rest, offset);
    } else {
      EntryIsLocal(pattern, line, rest);
      if Entry(pattern, line).None? {
        ScanPassesLine(pattern, line, rest, offset);
      } else {
        var hit := Entry(pattern, line).value;
        ScanHit(pattern, line + rest, true, offset);
        assert (line + rest)[hit.start..hit.end] == line[hit.start..hit.end];
        assert (line + rest)[hit.end..] == line[hit.end..] + rest;
        ScanSkipsWithinLine(pattern, line[hit.end..], rest, offset + hit.end);
      }
    }
  }

  /** The hits of a file, line by line. */
  function FileHits(pattern: Pattern, lines: seq<string>, offset: nat): seq<Found>
    decreases |lines|
  {
    if lines == [] then []
    else LineHit(pattern, lines[0], offset) + FileHits(pattern, lines[1..], offset + |lines[0]| + 1)
  }

  /** On regular lines the regular expression finds exactly the hits of the single lines. */
  lemma {:induction false} ScanFile(pattern: Pattern, lines: seq<string>, offset: nat)
    requires pattern != Prometheus && lines != [] && forall i :: 0 <= i < |lines| ==> Regular(lines[i])
    ensures Scan(pattern, Unlines(lines), true, offset) == FileHits(pattern, lines, offset)
    decreases |lines|
  {
    hide Entry, InBounds, Regular, Scan, LineHit;
    if |lines| == 1 {
      ScanLine(pattern, lines[0], "", offset);
      assert lines[0] + "" == lines[0];
      ScanEmpty(pattern, offset + |lines[0]|);
      assert FileHits(pattern, lines[1..], offset + |lines[0]| + 1) == [];
    } else {
      var rest := "\n" + Unlines(lines[1..]);
      assert Unlines(lines) == lines[0] + rest;
      ScanLine(pattern, lines[0], rest, offset);
      ScanNewline(pattern, Unlines(lines[1..]), offset + |lines[0]|);
      ScanFile(pattern, lines[1..], offset + |lines[0]| + 1);
    }
  }

  lemma ScanEmpty(pattern: Pattern, offset: nat)
    ensures Scan(pattern, "", false, offset) == []
  {
  }

  // Editing line by line

  function EditLine(edit: Edit, line: string): string {
    match Entry(Existing, line)
    case None => line
    case Some(hit) => EditAt(edit, line, hit.start)
  }

  function EditLines(edit: Edit, lines: seq<string>): (r: seq<string>)
    ensures |r| == |lines|
  {
    if lines == [] then [] else [EditLine(edit, lines[0])] + EditLines(edit, lines[1..])
  }

  lemma {:induction false} TakeMiddle(before: string, line: string, after: string, k: nat)
    requires k <= |line|
    ensures (before + line + after)[..|before| + k] == before + line[..k]
    ensures (before + line + after)[|before| + k..] == line[k..] + after
  {
  }

  lemma {:induction false} EditAtMiddle(edit: Edit, before: string, line: string, after: string, k: nat)
    requires k < |line|
    ensures EditAt(edit, before + line + after, |before| + k) == before + EditAt(edit, line, k) + after
  {
    var s := before + line + after;
    TakeMiddle(before, line, after, k);
    if edit == AddHash {
      Regroup(before, line[..k], "#", line[k..], after);
    } else {
      TakeMiddle(before, line, after, k + 1);
      assert s[|before| + k + 1..] == line[k + 1..] + after;
      assert (before + line[..k]) + (line[k + 1..] + after) == before + (line[..k] + line[k + 1..]) + after;
    }
  }

  lemma {:induction false} Regroup(a: string, b: string, c: string, d: string, e: string)
    ensures a + (b + c + d) + e == (a + b) + c + (d + e)
  {
  }

  lemma {:induction false} FileHitsInBounds(lines: seq<string>, offset: nat)
    requires lines != [] && forall i :: 0 <= i < |lines| ==> Regular(lines[i])
    ensures InBounds(FileHits(Existing, lines, offset), offset, offset + |Unlines(lines)|)
  {
    ScanFile(Existing, lines, offset);
    ScanIsInBounds(Existing, Unlines(lines), true, offset);
  }

  /** The edits at descending offsets are the same as one pass over the lines. */
  ghost predicate EditsInOnePass(edit: Edit, before: string, lines: seq<string>)
    requires lines != []
  {
    var hits := FileHits(Existing, lines, |before|);
    && InBounds(hits, 0, |before + Unlines(lines)|)
    && EditDescending(edit, before + Unlines(lines), hits) == before + Unlines(EditLines(edit, lines))
  }

  lemma {:induction false} EditFile(edit: Edit, before: string, lines: seq<string>)
    requires lines != [] && forall i :: 0 <= i < |lines| ==> Regular(lines[i])
    ensures EditsInOnePass(edit, before, lines)
    decreases |lines|
  {
    hide *;
    FileHitsInBounds(lines, |before|);
    InBoundsWiden(FileHits(Existing, lines, |before|), 0, |before|, |before + Unlines(lines)|);
    if |lines| == 1 {
      EditOneLine(edit, before, lines);
    } else {
      EditFile(edit, before + lines[0] + "\n", lines[1..]);
      EditMoreLines(edit, before, lines);
    }
  }

  lemma {:induction false} EditOneLine(edit: Edit, before: string, lines: seq<string>)
    requires |lines| == 1 && InBounds(FileHits(Existing, lines, |before|), 0, |before + Unlines(lines)|)
    ensures EditsInOnePass(edit, before, lines)
  {
    hide InBounds, EditDescending, EditLine, LineHit;
    var below := FileHits(Existing, lines[1..], |before| + |lines[0]| + 1);
    assert below == [] && FileHits(Existing, lines, |before|) == LineHit(Existing, lines[0], |before|) + below;
    EditLastLine(edit, before, lines[0]);
  }

  lemma {:induction false} EditMoreLines(edit: Edit, before: string, lines: seq<string>)
    requires |lines| > 1 && InBounds(FileHits(Existing, lines, |before|), 0, |before + Unlines(lines)|)
    requires EditsInOnePass(edit, before + lines[0] + "\n", lines[1..])
    ensures EditsInOnePass(edit, before, lines)
  {
    var below := FileHits(Existing, lines[1..], |before| + |lines[0]| + 1);
    var edited := EditLines(edit, lines);
    assert |before + lines[0] + "\n"| == |before| + |lines[0]| + 1;
    assert edited[0] == EditLine(edit, lines[0]) && edited[1..] == EditLines(edit, lines[1..]);
    hide InBounds, EditDescending, EditLine, EditLines, LineHit;
    EditFirstLine(edit, before, lines[0], Unlines(lines[1..]), below, Unlines(edited[1..]));
  }

  lemma {:induction false} EditFirstLine(edit: Edit, before: string, line: string, rest: string, hits: seq<Found>,
                                         rest': string)
    requires InBounds(LineHit(Existing, line, |before|) + hits, 0, |before + (line + "\n" + rest)|)
    requires InBounds(hits, 0, |before + line + "\n" + rest|)
    requires EditDescending(edit, before + line + "\n" + rest, hits) == before + line + "\n" + rest'
    ensures EditDescending(edit, before + (line + "\n" + rest), LineHit(Existing, line, |before|) + hits)
            == before + (EditLine(edit, line) + "\n" + rest')
  {
    hide InBounds, EditDescending, EditLine, LineHit;
    assert before + (line + "\n" + rest) == before + line + ("\n" + rest) == before + line + "\n" + rest;
    assert before + line + ("\n" + rest') == before + line + "\n" + rest';
    EditFront(edit, before, line, "\n" + rest, hits, "\n" + rest');
    assert before + (EditLine(edit, line) + "\n" + rest') == before + EditLine(edit, line) + ("\n" + rest');
  }

  lemma {:induction false} EditLastLine(edit: Edit, before: string, line: string)
    requires InBounds(LineHit(Existing, line, |before|) + [], 0, |before + line|)
    ensures EditDescending(edit, before + line, LineHit(Existing, line, |before|) + [])
            == before + EditLine(edit, line)
  {
    EditNothing(edit, before + line);
    hide InBounds, EditDescending, EditLine, LineHit;
    assert before + line + "" == before + line;
    EditFront(edit, before, line, "", [], "");
    assert before + EditLine(edit, line) + "" == before + EditLine(edit, line);
  }

  lemma EditNothing(edit: Edit, s: string)
    ensures InBounds([], 0, |s|) && EditDescending(edit, s, []) == s
  {
  }

  lemma {:induction false} EditFront(edit: Edit, before: string, line: string, after: string, hits: seq<Found>,
                                     after': string)
    requires InBounds(LineHit(Existing, line, |before|) + hits, 0, |before + line + after|)
    requires InBounds(hits, 0, |before + line + after|)
    requires EditDescending(edit, before + line + after, hits) == before + line + after'
    ensures EditDescending(edit, before + line + after, LineHit(Existing, line, |before|) + hits)
            == before + EditLine(edit, line) + after'
  {
    hide Entry, InBounds;
    var all := LineHit(Existing, line, |before|) + hits;
    match Entry(Existing, line)
    case None =>
      assert all == hits;
    case Some(hit) =>
      assert all[1..] == hits;
      EditAtMiddle(edit, before, line, after', hit.start);
  }

  // What an edit does to one line

  lemma {:induction false} StripIsSuffix(s: string)
    ensures s[|s| - |Strip(s)|..] == Strip(s) && Strip(s[..|s| - |Strip(s)|]) == ""
  {
    if s != "" && IsSpace(s[0]) {
      StripIsSuffix(s[1..]);
      var k := |s| - |Strip(s)|;
      assert s[k..] == s[1..][k - 1..] && s[..k][1..] == s[1..][..k - 1];
    } else {
      assert s[0..] == s && s[..0] == "";
    }
  }

  /** The front of a line after a hash sign was put before its first visible character. */
  lemma {:induction false} StripHashed(line: string)
    ensures var k := |line| - |Strip(line)|;
            Strip(line[..k] + "#" + line[k..]) == "#" + Strip(line)
  {
    var k := |line| - |Strip(line)|;
    StripIsSuffix(line);
    assert line[..k] + "#" + line[k..] == line[..k] + ("#" + Strip(line));
    StripAppend(line[..k], "#" + Strip(line));
    assert Strip("#" + Strip(line)) == "#" + Strip(line);
  }

  /** The line a subversion and a reversion leave behind: as it was, with one more hash if it was a comment. */
  function Restored(line: string): string {
    if Entry(Active, line).Some? then line else EditLine(AddHash, line)
  }

  lemma {:induction false} UncommentedEntry(line: string)
    requires Strip(line) == "" || Strip(line)[0] != '#'
    ensures Entry(Existing, line) == Entry(Active, line)
  {
  }

  lemma {:induction false} ActiveIsExisting(line: string)
    requires Entry(Active, line).Some?
    ensures Entry(Existing, line) == Entry(Active, line)
  {
    assert Strip(line)[0] == KEYWORD[0];
    UncommentedEntry(line);
  }

  lemma {:induction false} HashedLine(line: string)
    requires Regular(line)
    ensures var hashed := EditLine(AddHash, line);
            && Regular(hashed)
            && Entry(Active, hashed) == None
            && (Entry(Active, line).Some? ==> Entry(Existing, hashed).Some?)
            && EditLine(RemoveChar, hashed) == Restored(line)
  {
    match Entry(Existing, line)
    case None =>
      if Entry(Active, line).Some? {
        ActiveIsExisting(line);
      }
    case Some(hit) =>
      HashedEntry(line);
  }

  lemma {:induction false} HashedEntry(line: string)
    requires Regular(line) && Entry(Existing, line).Some?
    ensures var hashed := EditLine(AddHash, line);
            && Regular(hashed)
            && Entry(Active, hashed) == None
            && (Entry(Active, line).Some? ==> Entry(Existing, hashed).Some?)
            && EditLine(RemoveChar, hashed) == Restored(line)
  {
    hide AfterArgument;
    var t := Strip(line);
    var hashed := EditLine(AddHash, line);
    StripHashed(line);
    assert Strip(hashed) == "#" + t && ("#" + t)[1..] == t && Strip(t) == t;
    assert Uncomment(Existing, "#" + t) == t;
    assert !(KEYWORD <= "#" + t);
    if t[0] == '#' {
      assert !(KEYWORD <= t);
    } else {
      UncommentedEntry(line);
      var k := |line| - |t|;
      assert Entry(Existing, hashed).Some? && Entry(Existing, hashed).value.start == k;
      assert hashed == line[..k] + "#" + line[k..];
      assert hashed[..k] == line[..k] && hashed[k + 1..] == line[k..];
      assert line[..k] + line[k..] == line;
    }
  }

  // Whole files

  const LOCAL_LINE := KEYWORD + " " + LOCALHOST

  ghost predicate AllRegular(lines: seq<string>) {
    lines != [] && forall i :: 0 <= i < |lines| ==> Regular(lines[i])
  }

  ghost predicate NoneActive(lines: seq<string>) {
    forall i :: 0 <= i < |lines| ==> Entry(Active, lines[i]) == None
  }

  ghost predicate NoneLocal(lines: seq<string>) {
    forall i :: 0 <= i < |lines| ==> Entry(Prometheus, lines[i]) == None
  }

  lemma {:induction false} UnlinesAppend(a: seq<string>, b: seq<string>)
    requires a != [] && b != []
    ensures Unlines(a + b) == Unlines(a) + "\n" + Unlines(b)
    decreases |a|
  {
    if |a| == 1 {
      assert (a + b)[1..] == b;
    } else {
      assert (a + b)[1..] == a[1..] + b;
      UnlinesAppend(a[1..], b);
      assert a[0] + "\n" + (Unlines(a[1..]) + "\n" + Unlines(b)) == a[0] + "\n" + Unlines(a[1..]) + "\n" + Unlines(b);
    }
  }

  lemma {:induction false} FileHitsAppend(pattern: Pattern, a: seq<string>, b: seq<string>, offset: nat)
    requires a != []
    ensures FileHits(pattern, a + b, offset)
            == FileHits(pattern, a, offset) + FileHits(pattern, b, offset + |Unlines(a)| + 1)
    decreases |a|
  {
    hide LineHit;
    var low := offset + |a[0]| + 1;
    assert (a + b)[1..] == a[1..] + b && (a + b)[0] == a[0];
    if |a| == 1 {
      assert a[1..] == [] && [] + b == b;
      assert FileHits(pattern, a[1..], low) == [];
    } else {
      assert |Unlines(a)| == |a[0]| + 1 + |Unlines(a[1..])|;
      hide Unlines;
      FileHitsAppend(pattern, a[1..], b, low);
    }
  }

  lemma {:induction false} NoFileHits(pattern: Pattern, lines: seq<string>, offset: nat)
    requires forall i :: 0 <= i < |lines| ==> Entry(pattern, lines[i]) == None
    ensures FileHits(pattern, lines, offset) == []
    decreases |lines|
  {
    hide Entry;
    if lines == [] {
    } else {
      NoFileHits(pattern, lines[1..], offset + |lines[0]| + 1);
    }
  }

  lemma {:induction false} DropWholeWord(s: string)
    requires forall i :: 0 <= i < |s| ==> !IsSpace(s[i])
    ensures DropWord(s) == ""
  {
    if s == "" {
    } else {
      DropWholeWord(s[1..]);
    }
  }

  /** " 127.0.0.1" */
  const LOCAL_ARGUMENT := " " + LOCALHOST

  lemma {:induction false} LocalhostIsAWord()
    ensures DropWord(LOCALHOST) == "" && Strip(LOCALHOST) == LOCALHOST
  {
    assert forall i :: 0 <= i < 9 ==> !IsSpace(LOCALHOST[i]);
    DropWholeWord(LOCALHOST);
  }

  lemma {:induction false} LocalParts()
    ensures Strip(LOCAL_LINE) == LOCAL_LINE && LOCAL_LINE[10..] == LOCAL_ARGUMENT
    ensures Strip(LOCAL_ARGUMENT) == LOCALHOST && DropWord(LOCALHOST) == ""
  {
    hide DropWord;
    LocalhostIsAWord();
    assert LOCAL_ARGUMENT[1..] == LOCALHOST;
    assert LOCAL_LINE[0] == 'n';
  }

  lemma {:induction false} LocalLine()
    ensures Regular(LOCAL_LINE) && Regular("")
    ensures Entry(Active, LOCAL_LINE) == Some(Hit(0, 20)) && Entry(Active, "") == None
  {
    LocalParts();
    hide Strip, DropWord;
    assert Strip("") == "";
    assert KEYWORD <= LOCAL_LINE && LOCAL_LINE[0] == 'n';
  }

  lemma {:induction false} EditExistingFile(edit: Edit, lines: seq<string>)
    requires AllRegular(lines)
    ensures ExistingNameservers(Unlines(lines)) == FileHits(Existing, lines, 0)
    ensures EditExisting(edit, Unlines(lines)) == Unlines(EditLines(edit, lines))
  {
    hide Regular, Scan, FileHits, EditDescending, InBounds, EditLines, Unlines;
    ScanFile(Existing, lines, 0);
    EditFile(edit, "", lines);
    assert "" + Unlines(lines) == Unlines(lines);
    assert "" + Unlines(EditLines(edit, lines)) == Unlines(EditLines(edit, lines));
  }

  lemma {:induction false} EditLinesAt(edit: Edit, lines: seq<string>, i: nat)
    requires i < |lines|
    ensures EditLines(edit, lines)[i] == EditLine(edit, lines[i])
  {
    hide EditLine;
    if i == 0 {
    } else {
      EditLinesAt(edit, lines[1..], i - 1);
    }
  }

  lemma {:induction false} HashedLines(lines: seq<string>)
    requires AllRegular(lines)
    ensures AllRegular(EditLines(AddHash, lines)) && NoneActive(EditLines(AddHash, lines))
    ensures NoneLocal(EditLines(AddHash, lines))
    ensures EditLines(RemoveChar, EditLines(AddHash, lines)) == Map(Restored, lines)
    ensures forall i :: 0 <= i < |lines| && Entry(Active, lines[i]).Some? ==>
              Entry(Existing, EditLines(AddHash, lines)[i]).Some?
  {
    var hashed := EditLines(AddHash, lines);
    hide Entry, Regular, EditLine, Restored, EditLines;
    forall i | 0 <= i < |lines|
      ensures Regular(hashed[i]) && Entry(Active, hashed[i]) == None && Entry(Prometheus, hashed[i]) == None
      ensures EditLines(RemoveChar, hashed)[i] == Map(Restored, lines)[i]
      ensures Entry(Active, lines[i]).Some? ==> Entry(Existing, hashed[i]).Some?
    {
      EditLinesAt(AddHash, lines, i);
      EditLinesAt(RemoveChar, hashed, i);
      MapAt(Restored, lines, i);
      HashedLine(lines[i]);
      PrometheusIsActive(hashed[i]);
    }
  }

  // The appended line, seen by the checks

  lemma {:induction false} DropDigitsOf(digits: string, rest: string)
    requires (forall i :: 0 <= i < |digits| ==> IsDigit(digits[i])) && (rest == "" || !IsDigit(rest[0]))
    ensures DropDigits(digits + rest) == rest
  {
    if digits == "" {
      assert digits + rest == rest;
    } else {
      assert (digits + rest)[1..] == digits[1..] + rest;
      DropDigitsOf(digits[1..], rest);
    }
  }

  lemma {:induction false} LocalhostIsOctets(rest: string)
    requires rest == "" || rest[0] == '#'
    ensures Octets(LOCALHOST + rest, 3)
  {
    var a, b, c, d := LOCALHOST + rest, "0.0.1" + rest, "0.1" + rest, "1" + rest;
    assert a == "127" + ("." + b) && b == "0" + ("." + c) && c == "0" + ("." + d);
    assert ("." + b)[1..] == b && ("." + c)[1..] == c && ("." + d)[1..] == d;
    DropDigitsOf("127", "." + b);
    DropDigitsOf("0", "." + c);
    DropDigitsOf("0", "." + d);
    DropDigitsOf("1", rest);
    assert Strip(rest) == rest;
    hide DropDigits, Strip;
    assert Octets(d, 0);
    assert Octets(c, 1);
    assert Octets(b, 2);
  }

  ghost predicate NoSpace(s: string) {
    forall i :: 0 <= i < |s| ==> !IsSpace(s[i])
  }

  /** An entry as the active expression captures it. */
  ghost predicate IsEntryText(text: string, gap: string, word: string) {
    text == KEYWORD + gap + word && gap != "" && Strip(gap) == "" && NoSpace(word)
  }

  lemma {:induction false} BlankIsSpaces(s: string)
    requires Strip(s) == ""
    ensures forall i :: 0 <= i < |s| ==> IsSpace(s[i])
  {
    if s == "" {
    } else {
      BlankIsSpaces(s[1..]);
    }
  }

  lemma {:induction false} StripVisible(s: string)
    requires NoSpace(s)
    ensures Strip(s) == s
  {
  }

  /** Neither expression of `is_prometheus_ip` can match an entry anywhere but at its front. */
  lemma {:induction false} NoArgumentLater(text: string, gap: string, word: string, k: nat)
    requires IsEntryText(text, gap, word) && 0 < k <= |text|
    ensures Argument(text[k..]) == None
  {
    var s := text[k..];
    BlankIsSpaces(gap);
    if k >= 10 + |gap| {
      assert s == word[k - 10 - |gap|..];
      if |s| > 10 {
        StripVisible(s[10..]);
      }
    } else {
      assert s[0] == text[k] && text[k] != 'n';
    }
  }

  lemma {:induction false} NoMatchWithoutArgument(s: string)
    requires forall k :: 0 <= k <= |s| ==> Argument(s[k..]) == None
    ensures !SyntaxMatches(s) && !LocalhostMatches(s)
  {
    hide Argument;
    assert s[0..] == s;
    if s == "" {
    } else {
      forall k | 0 <= k <= |s[1..]| ensures Argument(s[1..][k..]) == None {
        assert s[1..][k..] == s[k + 1..];
      }
      NoMatchWithoutArgument(s[1..]);
    }
  }

  lemma {:induction false} EntryArgument(text: string, gap: string, word: string)
    requires IsEntryText(text, gap, word)
    ensures Argument(text) == Some(word)
  {
    assert text[10..] == gap + word;
    StripAppend(gap, word);
    StripVisible(word);
  }

  /** An entry is taken for the local resolver exactly when its argument is 127.0.0.1, a comment aside. */
  lemma {:induction false} PrometheusIpMeans(text: string, gap: string, word: string)
    requires IsEntryText(text, gap, word)
    ensures IsPrometheusIp(text) <==> word == LOCALHOST || LOCALHOST + "#" <= word
  {
    EntryArgument(text, gap, word);
    forall k | 0 <= k <= |text[1..]| ensures Argument(text[1..][k..]) == None {
      assert text[1..][k..] == text[k + 1..];
      NoArgumentLater(text, gap, word, k + 1);
    }
    NoMatchWithoutArgument(text[1..]);
    if LOCALHOST <= word {
      var rest := word[9..];
      assert word == LOCALHOST + rest && (rest != "" ==> rest[0] == word[9] && !IsSpace(word[9]));
      if rest == "" || rest[0] == '#' {
        LocalhostIsOctets(rest);
      }
      assert LOCALHOST + "#" <= word <==> rest != "" && rest[0] == '#';
    }
    hide Argument, Octets;
  }

  /** An entry whose argument is 127.0.0.1, a comment aside. */
  ghost predicate NamesLocalhost(text: string) {
    exists gap, word :: IsEntryText(text, gap, word) && (word == LOCALHOST || LOCALHOST + "#" <= word)
  }

  lemma {:induction false} WordInFront(s: string)
    ensures NoSpace(s[..|s| - |DropWord(s)|])
  {
    if s != "" && !IsSpace(s[0]) {
      WordInFront(s[1..]);
      var k := |s| - |DropWord(s)|;
      assert s[..k] == [s[0]] + s[1..][..k - 1];
    }
  }

  lemma {:induction false} ArgumentShape(t: string) returns (gap: string, word: string)
    requires AfterKeyword(Active, t).Some?
    ensures IsEntryText(t[..|t| - |AfterKeyword(Active, t).value|], gap, word)
  {
    var v := t[10..];
    var w := Strip(v);
    var rest := |DropWord(w)|;
    gap, word := v[..|v| - |w|], w[..|w| - rest];
    StripIsSuffix(v);
    WordInFront(w);
    assert AfterKeyword(Active, t).value == DropWord(w);
    hide Strip, DropWord, NoSpace, AfterKeyword;
    assert v == gap + w;
    CutThrice(t, gap, w, rest);
  }

  /** Whatever the active expression captures is the keyword, white space and one word. */
  lemma {:induction false} ActiveTextShape(s: string) returns (gap: string, word: string)
    requires Entry(Active, s).Some?
    ensures var hit := Entry(Active, s).value; IsEntryText(s[hit.start..hit.end], gap, word)
  {
    hide Strip, AfterKeyword, IsEntryText;
    var t := Strip(s);
    StripIsSuffix(s);
    gap, word := ArgumentShape(t);
    CutInside(s, t, |AfterKeyword(Active, t).value|);
  }

  lemma {:induction false} CutInside(s: string, t: string, rest: nat)
    requires rest <= |t| <= |s| && s[|s| - |t|..] == t
    ensures s[|s| - |t|..|s| - rest] == t[..|t| - rest]
  {
    assert s[|s| - |t|..][..|t| - rest] == t[..|t| - rest];
  }

  lemma {:induction false} CutThrice(t: string, gap: string, w: string, rest: nat)
    requires rest <= |w| && t == KEYWORD + (gap + w)
    ensures t[..|t| - rest] == KEYWORD + gap + w[..|w| - rest]
  {
  }

  lemma {:induction false} ActiveMeans(s: string)
    requires Entry(Active, s).Some?
    ensures var hit := Entry(Active, s).value;
            IsPrometheusIp(s[hit.start..hit.end]) <==> NamesLocalhost(s[hit.start..hit.end])
  {
    hide Entry, IsPrometheusIp, IsEntryText;
    var hit := Entry(Active, s).value;
    var text := s[hit.start..hit.end];
    var gap, word := ActiveTextShape(s);
    PrometheusIpMeans(text, gap, word);
    if NamesLocalhost(text) {
      var gap', word' :| IsEntryText(text, gap', word') && (word' == LOCALHOST || LOCALHOST + "#" <= word');
      PrometheusIpMeans(text, gap', word');
    }
  }

  ghost predicate JudgedRight(found: seq<Found>) {
    forall i :: 0 <= i < |found| ==> (IsPrometheusIp(found[i].text) <==> NamesLocalhost(found[i].text))
  }

  lemma {:induction false} ScannedMeans(s: string, atStart: bool, offset: nat)
    ensures JudgedRight(Scan(Active, s, atStart, offset))
    decreases |s|
  {
    hide Entry, Scan, IsPrometheusIp, NamesLocalhost;
    var hit := if atStart || (s != "" && s[0] == '\n') then Entry(Active, s) else None;
    if hit.Some? {
      ScanHit(Active, s, atStart, offset);
      ActiveMeans(s);
      ScannedMeans(s[hit.value.end..], false, offset + hit.value.end);
    } else {
      ScanMiss(Active, s, atStart, offset);
      if s != "" {
        ScannedMeans(s[1..], false, offset + 1);
      }
    }
  }

  /**
   * What `subvert` does with any file at all: it refuses one without an active nameserver, leaves
   * one alone whose first nameserver is the local resolver, refuses one where only a later one is,
   * and changes every other.
   */
  lemma {:induction false} SubvertOutcome(contents: string)
    ensures var active := ActiveNameservers(contents);
            var outcome := SubvertContents(contents);
            && (outcome == Err(Disconnected) <==> active == [])
            && (outcome == Ok(contents) <==> active != [] && NamesLocalhost(active[0].text))
            && (outcome == Err(Nonsense)
                <==> active != [] && !NamesLocalhost(active[0].text)
                     && exists i :: 0 <= i < |active| && NamesLocalhost(active[i].text))
            && (outcome.Ok? && outcome.value != contents
                <==> active != [] && forall i :: 0 <= i < |active| ==> !NamesLocalhost(active[i].text))
  {
    hide Scan, IsPrometheusIp, NamesLocalhost, InBounds, EditAt, ExistingNameservers;
    var active := ActiveNameservers(contents);
    ScannedMeans(contents, true, 0);
    assert JudgedRight(active);
    assert |EditExisting(AddHash, contents) + SUFFIX| > |contents|;
  }

  lemma {:induction false} LocalLineShape()
    ensures IsEntryText(LOCAL_LINE, " ", LOCALHOST)
  {
    assert Strip(" ") == Strip(" "[1..]) == "";
    assert NoSpace(LOCALHOST);
  }

  lemma {:induction false} LocalLineChecks()
    ensures IsPrometheusIp(LOCAL_LINE)
    ensures NameserverLineToIp(LOCAL_LINE) == Some(LOCALHOST)
  {
    LocalLineShape();
    LocalParts();
    UpToEnd(LOCALHOST);
    hide Strip, IsPrometheusIp, IsEntryText, Argument, UpToSpaceOrHash;
    PrometheusIpMeans(LOCAL_LINE, " ", LOCALHOST);
    EntryArgument(LOCAL_LINE, " ", LOCALHOST);
  }

  lemma {:induction false} UpToEnd(s: string)
    requires forall i :: 0 <= i < |s| ==> !IsSpace(s[i]) && s[i] != '#'
    ensures UpToSpaceOrHash(s) == s
  {
    if s == "" {
    } else {
      UpToEnd(s[1..]);
    }
  }

  // The laws

  function Texts(hits: seq<Found>): seq<string> {
    if hits == [] then [] else [hits[0].text] + Texts(hits[1..])
  }

  lemma {:induction false} TextsAppend(a: seq<Found>, b: seq<Found>)
    ensures Texts(a + b) == Texts(a) + Texts(b)
  {
    if a == [] {
      assert a + b == b;
    } else {
      assert (a + b)[1..] == a[1..] + b;
      TextsAppend(a[1..], b);
    }
  }

  /** The one-pass form of a subversion. */
  lemma {:induction false} SubvertIsOnePass(contents: string)
    requires RegularFile(contents)
    requires SubvertContents(contents).Ok? && SubvertContents(contents).value != contents
    ensures AllRegular(Lines(contents)) && Unlines(Lines(contents)) == contents
    ensures SubvertContents(contents).value == Unlines(EditLines(AddHash, Lines(contents))) + SUFFIX
    ensures FileHits(Active, Lines(contents), 0) != []
  {
    hide Regular, Scan, EditDescending, FileHits, EditLines, Unlines, IsPrometheusIp, Split;
    UnlinesLines(contents);
    EditExistingFile(AddHash, Lines(contents));
    ScanFile(Active, Lines(contents), 0);
  }

  /**
   * Subversion: on every line-regular file that it changes, `subvert` leaves 127.0.0.1 as the only
   * active nameserver, so that the status reads "subverted", and a second `subvert` changes nothing.
   */
  lemma {:induction false} SubvertWorks(contents: string)
    requires RegularFile(contents)
    requires SubvertContents(contents).Ok? && SubvertContents(contents).value != contents
    ensures var after := SubvertContents(contents).value;
            && ActiveNameservers(after) == [Found(LOCAL_LINE, |after| - 21)]
            && InspectContents(after) == Ok(Some(LOCALHOST + "\n"))
            && StatusFromInspect(LOCALHOST + "\n") == Subverted
            && SubvertContents(after) == Ok(after)
  {
    hide Scan, SubvertContents, InspectContents, EditLines, Unlines, Regular, RegularFile, Entry, Split, Restored, Map;
    var lines := Lines(contents);
    SubvertIsOnePass(contents);
    HashedLines(lines);
    ActiveAfterSuffix(EditLines(AddHash, lines));
    OnlyLocal(SubvertContents(contents).value);
  }

  lemma {:induction false} OnlyLocal(contents: string)
    requires |ActiveNameservers(contents)| == 1 && ActiveNameservers(contents)[0].text == LOCAL_LINE
    ensures InspectContents(contents) == Ok(Some(LOCALHOST + "\n"))
    ensures SubvertContents(contents) == Ok(contents)
  {
    hide Scan, IsPrometheusIp, NameserverLineToIp;
    LocalLineChecks();
    AlreadySubverted(contents);
    var active := ActiveNameservers(contents);
    assert active[1..] == [] && IpLines(active[1..]) == Some("");
    assert IpLines(active) == Some(LOCALHOST + "\n" + "");
    assert LOCALHOST + "\n" + "" == LOCALHOST + "\n";
  }

  lemma {:induction false} AlreadySubverted(contents: string)
    requires ActiveNameservers(contents) != [] && IsPrometheusIp(ActiveNameservers(contents)[0].text)
    ensures SubvertContents(contents) == Ok(contents)
  {
    hide Scan, IsPrometheusIp;
  }

  lemma {:induction false} ActiveAfterSuffix(lines: seq<string>)
    requires AllRegular(lines) && NoneActive(lines)
    ensures var after := Unlines(lines) + SUFFIX;
            ActiveNameservers(after) == [Found(LOCAL_LINE, |after| - 21)]
  {
    var more := [LOCAL_LINE, ""];
    hide Scan, Regular, Entry, FileHits;
    SuffixIsLines(lines);
    ScanFile(Active, lines + more, 0);
    FileHitsAppend(Active, lines, more, 0);
    NoFileHits(Active, lines, 0);
    LocalTailHits(|Unlines(lines)| + 1);
  }

  lemma {:induction false} SuffixIsLines(lines: seq<string>)
    requires AllRegular(lines)
    ensures Unlines(lines) + SUFFIX == Unlines(lines + [LOCAL_LINE, ""]) && AllRegular(lines + [LOCAL_LINE, ""])
  {
    hide Regular, Unlines;
    var more := [LOCAL_LINE, ""];
    LocalLine();
    SuffixText();
    UnlinesAppend(lines, more);
    assert Unlines(lines) + "\n" + Unlines(more) == Unlines(lines) + ("\n" + Unlines(more));
  }

  lemma {:induction false} SuffixText()
    ensures "\n" + Unlines([LOCAL_LINE, ""]) == SUFFIX
  {
    assert [LOCAL_LINE, ""][1..] == [""];
    assert Unlines([LOCAL_LINE, ""]) == LOCAL_LINE + "\n" + "";
  }

  lemma {:induction false} LocalTailHits(offset: nat)
    ensures FileHits(Active, [LOCAL_LINE, ""], offset) == [Found(LOCAL_LINE, offset)]
  {
    hide Entry;
    LocalLine();
    assert [LOCAL_LINE, ""][1..] == [""] && LOCAL_LINE[0..20] == LOCAL_LINE;
    NoFileHits(Active, [""], offset + |LOCAL_LINE| + 1);
  }
}
