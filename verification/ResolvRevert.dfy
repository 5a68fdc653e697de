/**
 * Reverting resolv.conf (dns_utility/src/resolv_conf_dns_modifier.rs): what it finds, what it leaves,
 * and how it undoes a subversion.
 */
module ResolvRevert {
  import opened Basics
  import opened ResolvConf

  // What the expression for the local resolver matches

  function EntryText(gap: string): (r: string)
    ensures |r| == |gap| + 19
  {
    KEYWORD + gap + LOCALHOST
  }

  /** White space, the keyword, white space and an argument that begins with 127.0.0.1, then anything. */
  ghost predicate IsLocalText(s: string, blank: string, gap: string, rest: string) {
    && s == blank + EntryText(gap) + rest
    && Strip(blank) == "" && gap != "" && Strip(gap) == ""
  }

  ghost predicate BeginsLocal(s: string) {
    exists blank, gap, rest :: IsLocalText(s, blank, gap, rest)
  }

  /** The newline right behind the address belongs to the match. */
  function NewlineOf(rest: string): string {
    if rest != "" && rest[0] == '\n' then "\n" else ""
  }

  lemma {:induction false} StripWord(s: string)
    requires s != "" && !IsSpace(s[0])
    ensures Strip(s) == s
  {
  }

  /** The same from the keyword on. */
  ghost predicate IsLocalEntry(u: string, gap: string, rest: string) {
    u == EntryText(gap) + rest && gap != "" && Strip(gap) == ""
  }

  lemma {:induction false} EntryTextParts(gap: string, rest: string)
    ensures var u := EntryText(gap) + rest;
            u[0] == 'n' && KEYWORD <= u && u[10..] == gap + (LOCALHOST + rest) && (LOCALHOST + rest)[0] == '1'
  {
  }

  lemma {:induction false} LocalEntryParts(u: string, gap: string, rest: string)
    requires IsLocalEntry(u, gap, rest)
    ensures u != "" && Strip(u) == u && KEYWORD <= u
    ensures u[10..] == gap + (LOCALHOST + rest) && Strip(u[10..]) == LOCALHOST + rest
  {
    hide EntryText, Strip;
    EntryTextParts(gap, rest);
    StripWord(u);
    StripWord(LOCALHOST + rest);
    StripAppend(gap, LOCALHOST + rest);
  }

  lemma {:induction false} SplitLocal(s: string, blank: string, gap: string, rest: string)
    requires IsLocalText(s, blank, gap, rest)
    ensures IsLocalEntry(EntryText(gap) + rest, gap, rest)
    ensures s == blank + (EntryText(gap) + rest)
    ensures Strip(s) == EntryText(gap) + rest
  {
    var u := EntryText(gap) + rest;
    assert s == blank + u;
    LocalEntryParts(u, gap, rest);
    StripAppend(blank, u);
  }

  lemma {:induction false} AfterLocalKeyword(u: string, gap: string, rest: string)
    requires IsLocalEntry(u, gap, rest)
    ensures AfterKeyword(Prometheus, u) == Some(rest[|NewlineOf(rest)|..])
    ensures AfterKeyword(Active, u) == Some(DropWord(LOCALHOST + rest))
  {
    LocalEntryParts(u, gap, rest);
    hide Strip, DropWord, IsLocalEntry;
    var arg := LOCALHOST + rest;
    assert LOCALHOST <= arg && arg[9..] == rest && (rest != "" ==> arg[9] == rest[0] && arg[10..] == rest[1..]);
  }

  lemma {:induction false} EntryOfLocal(s: string, blank: string, gap: string, rest: string)
    requires IsLocalText(s, blank, gap, rest)
    ensures Entry(Prometheus, s) == Some(Hit(|blank|, |blank| + |gap| + 19 + |NewlineOf(rest)|))
    ensures Entry(Active, s) == Some(Hit(|blank|, |s| - |DropWord(LOCALHOST + rest)|))
  {
    var u := EntryText(gap) + rest;
    SplitLocal(s, blank, gap, rest);
    AfterLocalKeyword(u, gap, rest);
    hide Strip, AfterKeyword, IsLocalEntry, DropWord;
  }

  lemma {:induction false} LocalEntryShape(t: string) returns (gap: string, rest: string)
    requires AfterKeyword(Prometheus, t).Some?
    ensures IsLocalEntry(t, gap, rest)
  {
    var v := t[10..];
    var arg := Strip(v);
    StripIsSuffix(v);
    gap, rest := v[..|v| - |arg|], arg[9..];
    assert KEYWORD <= t && LOCALHOST <= arg && gap != "";
    hide Strip, AfterKeyword;
    assert v == gap + arg;
    SplitTwice(t, gap, arg);
  }

  lemma {:induction false} SplitTwice(t: string, gap: string, arg: string)
    requires KEYWORD <= t && LOCALHOST <= arg && t[10..] == gap + arg
    ensures t == EntryText(gap) + arg[9..]
  {
    assert t == KEYWORD + (gap + arg) && arg == LOCALHOST + arg[9..];
  }

  lemma {:induction false} BlankInFront(s: string) returns (blank: string)
    ensures s == blank + Strip(s) && Strip(blank) == ""
  {
    StripIsSuffix(s);
    hide Strip;
    blank := s[..|s| - |Strip(s)|];
  }

  lemma {:induction false} LocalEntryFollows(s: string)
    ensures Entry(Prometheus, s).Some? <==> AfterKeyword(Prometheus, Strip(s)).Some?
  {
    hide Strip, AfterKeyword;
  }

  lemma {:induction false} LocalShape(s: string) returns (blank: string, gap: string, rest: string)
    requires Entry(Prometheus, s).Some?
    ensures IsLocalText(s, blank, gap, rest)
  {
    hide *;
    LocalEntryFollows(s);
    gap, rest := LocalEntryShape(Strip(s));
    blank := BlankInFront(s);
    JoinLocalText(blank, Strip(s), gap, rest);
  }

  lemma {:induction false} JoinLocalText(blank: string, t: string, gap: string, rest: string)
    requires Strip(blank) == "" && IsLocalEntry(t, gap, rest)
    ensures IsLocalText(blank + t, blank, gap, rest)
  {
  }

  /** The expression matches at a place if and only if what stands there begins as an entry for 127.0.0.1 does. */
  lemma {:induction false} LocalEntryMeans(s: string)
    ensures Entry(Prometheus, s).Some? <==> BeginsLocal(s)
  {
    hide Entry;
    if Entry(Prometheus, s).Some? {
      var blank, gap, rest := LocalShape(s);
    }
    if blank, gap, rest :| IsLocalText(s, blank, gap, rest) {
      EntryOfLocal(s, blank, gap, rest);
    }
  }

  // Any text at all

  /** A match can begin at `p`: at a newline, or at the start of the file. */
  ghost predicate LocalAt(s: string, atStart: bool, p: nat) {
    p <= |s| && ((p == 0 && atStart) || (p < |s| && s[p] == '\n')) && BeginsLocal(s[p..])
  }

  ghost predicate HasLocal(s: string, atStart: bool) {
    exists p :: LocalAt(s, atStart, p)
  }

  /** The leftmost match: `found` is what it captures. */
  ghost predicate IsFirstLocal(s: string, atStart: bool, found: Found, p: nat, blank: string, gap: string, rest: string) {
    && LocalAt(s, atStart, p) && (forall q: nat :: q < p ==> !LocalAt(s, atStart, q))
    && IsLocalText(s[p..], blank, gap, rest)
    && found == Found(EntryText(gap) + NewlineOf(rest), p + |blank|)
  }

  lemma {:induction false} LocalAtNext(s: string, atStart: bool, p: nat)
    requires s != "" && !LocalAt(s, atStart, 0)
    ensures LocalAt(s, atStart, p + 1) <==> LocalAt(s[1..], false, p)
  {
    if p + 1 <= |s| {
      assert s[1..][p..] == s[p + 1..];
    }
  }

  /** What the scan finds first, and that it finds something exactly when there is something. */
  lemma {:induction false} FirstFound(s: string, atStart: bool, offset: nat)
    ensures Scan(Prometheus, s, atStart, offset) == [] <==> !HasLocal(s, atStart)
    decreases |s|
  {
    hide Entry, Scan, BeginsLocal;
    LocalEntryMeans(s);
    assert s[0..] == s;
    if LocalAt(s, atStart, 0) {
      ScanHit(Prometheus, s, atStart, offset);
    } else {
      ScanMiss(Prometheus, s, atStart, offset);
      if s == "" {
        assert forall p: nat :: !LocalAt(s, atStart, p);
      } else {
        FirstFound(s[1..], false, offset + 1);
        if p: nat :| LocalAt(s, atStart, p) {
          LocalAtNext(s, atStart, p - 1);
        }
        if p: nat :| LocalAt(s[1..], false, p) {
          LocalAtNext(s, atStart, p);
        }
      }
    }
  }

  lemma {:induction false} FirstFoundIs(s: string, atStart: bool, offset: nat)
    returns (found: Found, p: nat, blank: string, gap: string, rest: string)
    requires HasLocal(s, atStart)
    ensures IsFirstLocal(s, atStart, found, p, blank, gap, rest)
    ensures found.start + |found.text| <= |s|
    ensures Scan(Prometheus, s, atStart, offset)
            == [found.(start := offset + found.start)]
               + Scan(Prometheus, s[found.start + |found.text|..], false, offset + found.start + |found.text|)
    decreases |s|
  {
    hide Entry, Scan, BeginsLocal, EntryText, NewlineOf;
    LocalEntryMeans(s);
    assert s[0..] == s;
    if LocalAt(s, atStart, 0) {
      p := 0;
      blank, gap, rest := LocalShape(s);
      found := Found(EntryText(gap) + NewlineOf(rest), |blank|);
      FirstAtFront(s, blank, gap, rest, atStart, offset);
    } else {
      ScanMiss(Prometheus, s, atStart, offset);
      var q: nat :| LocalAt(s, atStart, q);
      assert s != "" && q > 0;
      LocalAtNext(s, atStart, q - 1);
      var found', p';
      found', p', blank, gap, rest := FirstFoundIs(s[1..], false, offset + 1);
      p := p' + 1;
      found := found'.(start := found'.start + 1);
      FirstShifts(s, atStart, found', p', blank, gap, rest);
      var end := found.start + |found.text|;
      assert s[1..][end - 1..] == s[end..];
    }
  }

  lemma {:induction false} FirstShifts(s: string, atStart: bool, found: Found, p: nat, blank: string, gap: string,
                                       rest: string)
    requires s != "" && !LocalAt(s, atStart, 0) && IsFirstLocal(s[1..], false, found, p, blank, gap, rest)
    ensures IsFirstLocal(s, atStart, found.(start := found.start + 1), p + 1, blank, gap, rest)
  {
    hide BeginsLocal, IsLocalText;
    LocalAtNext(s, atStart, p);
    assert s[1..][p..] == s[p + 1..];
    forall q: nat | q < p + 1 ensures !LocalAt(s, atStart, q) {
      if q > 0 {
        LocalAtNext(s, atStart, q - 1);
      }
    }
  }

  lemma {:induction false} FoundText(s: string, blank: string, gap: string, rest: string)
    requires IsLocalText(s, blank, gap, rest)
    ensures var end := |blank| + |gap| + 19 + |NewlineOf(rest)|;
            && end <= |s| && s[|blank|..end] == EntryText(gap) + NewlineOf(rest)
            && s[end..] == rest[|NewlineOf(rest)|..]
  {
  }

  lemma {:induction false} ScanAtLocal(s: string, blank: string, gap: string, rest: string, atStart: bool, offset: nat)
    requires IsLocalText(s, blank, gap, rest) && (atStart || (s != "" && s[0] == '\n'))
    ensures var end := offset + |blank| + |gap| + 19 + |NewlineOf(rest)|;
            Scan(Prometheus, s, atStart, offset)
            == [Found(EntryText(gap) + NewlineOf(rest), offset + |blank|)]
               + Scan(Prometheus, rest[|NewlineOf(rest)|..], false, end)
  {
    hide Scan, Entry;
    EntryOfLocal(s, blank, gap, rest);
    FoundText(s, blank, gap, rest);
    ScanHit(Prometheus, s, atStart, offset);
    hide IsLocalText, NewlineOf, EntryText;
  }

  lemma {:induction false} FirstAtFront(s: string, blank: string, gap: string, rest: string, atStart: bool, offset: nat)
    requires IsLocalText(s, blank, gap, rest) && (atStart || (s != "" && s[0] == '\n'))
    ensures var found := Found(EntryText(gap) + NewlineOf(rest), |blank|);
            var end := found.start + |found.text|;
            && end <= |s|
            && Scan(Prometheus, s, atStart, offset)
               == [found.(start := offset + found.start)] + Scan(Prometheus, s[end..], false, offset + end)
  {
    hide Scan, EntryText, IsLocalText, NewlineOf;
    ScanAtLocal(s, blank, gap, rest, atStart, offset);
    FoundText(s, blank, gap, rest);
  }

  lemma {:induction false} EditShortens(contents: string)
    ensures |EditExisting(RemoveChar, contents)| <= |contents|
  {
    ScanIsInBounds(Existing, contents, true, 0);
  }

  /**
   * What `revert` does with any text at all. It leaves alone exactly the texts without an entry whose
   * address begins with 127.0.0.1. Otherwise it takes the first such entry, with the newline right
   * behind the address; it refuses if a further one stands below, unless it owes its place to that
   * very newline; it refuses if no entry is left; and else takes a character from every entry.
   */
  lemma {:induction false} RevertOutcome(contents: string)
    returns (found: Found, p: nat, blank: string, gap: string, rest: string)
    ensures RevertContents(contents) == Ok(contents) <==> !HasLocal(contents, true)
    ensures HasLocal(contents, true) ==>
              && IsFirstLocal(contents, true, found, p, blank, gap, rest)
              && var end := found.start + |found.text|;
                 && end <= |contents|
                 && RevertContents(contents)
                    == if HasLocal(contents[end..], false) then Err(Nonsense)
                       else var left := contents[..found.start] + contents[end..];
                            if ExistingNameservers(left) == [] then Err(NothingToRevertTo)
                            else Ok(EditExisting(RemoveChar, left))
  {
    hide Scan, IsFirstLocal, LocalAt, EditExisting, ExistingNameservers;
    FirstFound(contents, true, 0);
    if HasLocal(contents, true) {
      found, p, blank, gap, rest := FirstFoundIs(contents, true, 0);
      var end := found.start + |found.text|;
      FirstFound(contents[end..], false, end);
      FirstIsNotEmpty(contents, true, found, p, blank, gap, rest);
      var left := contents[..found.start] + contents[end..];
      assert left == RemoveSpan(contents, found.start, |found.text|) && |left| < |contents|;
      EditShortens(left);
    } else {
      found, p, blank, gap, rest := Found("", 0), 0, "", "", "";
    }
  }

  lemma {:induction false} FirstIsNotEmpty(s: string, atStart: bool, found: Found, p: nat, blank: string, gap: string,
                                           rest: string)
    requires IsFirstLocal(s, atStart, found, p, blank, gap, rest)
    ensures found.text != ""
  {
  }

  // Regular files

  /** Lines with others below them. */
  function Above(lines: seq<string>): string {
    if lines == [] then "" else lines[0] + "\n" + Above(lines[1..])
  }

  /** Lines with another above them. */
  function Below(lines: seq<string>): string {
    if lines == [] then "" else "\n" + Unlines(lines)
  }

  lemma {:induction false} UnlinesAbove(a: seq<string>, b: seq<string>)
    requires b != []
    ensures Unlines(a + b) == Above(a) + Unlines(b)
    decreases |a|
  {
    if a == [] {
      assert a + b == b && "" + Unlines(b) == Unlines(b);
    } else {
      assert (a + b)[1..] == a[1..] + b;
      UnlinesAbove(a[1..], b);
      assert a[0] + "\n" + (Above(a[1..]) + Unlines(b)) == a[0] + "\n" + Above(a[1..]) + Unlines(b);
    }
  }

  lemma {:induction false} UnlinesBelow(line: string, b: seq<string>)
    ensures Unlines([line] + b) == line + Below(b)
  {
    assert ([line] + b)[1..] == b;
    assert line + "\n" + Unlines(if b == [] then [""] else b) == line + ("\n" + Unlines(if b == [] then [""] else b));
    assert line + "" == line;
  }

  ghost predicate EachRegular(lines: seq<string>) {
    forall i :: 0 <= i < |lines| ==> Regular(lines[i])
  }

  lemma {:induction false} ScanPrometheusLine(line: string, rest: string, offset: nat)
    requires Regular(line) && LineEnd(rest) && Entry(Prometheus, line) == None
    ensures Scan(Prometheus, line + rest, true, offset) == Scan(Prometheus, rest, false, offset + |line|)
  {
    hide Entry, Scan, Strip;
    if Strip(line) != "" {
      PrometheusIsLocal(line, rest);
    }
    ScanPassesLine(Prometheus, line, rest, offset);
  }

  /** Lines without the local resolver only hand the scan on. */
  lemma {:induction false} ScanAbove(a: seq<string>, s: string, offset: nat)
    requires EachRegular(a) && NoneLocal(a)
    ensures Scan(Prometheus, Above(a) + s, true, offset) == Scan(Prometheus, s, true, offset + |Above(a)|)
    decreases |a|
  {
    hide Scan, Entry, Regular;
    if a == [] {
      assert "" + s == s;
    } else {
      var more := Above(a[1..]) + s;
      assert Above(a) + s == a[0] + ("\n" + more);
      ScanPrometheusLine(a[0], "\n" + more, offset);
      ScanNewline(Prometheus, more, offset + |a[0]|);
      ScanAbove(a[1..], s, offset + |a[0]| + 1);
    }
  }

  lemma {:induction false} LocalLineIsFound(line: string, rest: string)
    requires Entry(Prometheus, line).Some?
    ensures Entry(Prometheus, line + rest).Some?
  {
    hide Entry;
    var blank, gap, tail := LocalShape(line);
    assert line + rest == blank + EntryText(gap) + (tail + rest);
    EntryOfLocal(line + rest, blank, gap, tail + rest);
  }

  lemma {:induction false} ScanFindsNone(lines: seq<string>, offset: nat)
    requires lines != [] && EachRegular(lines)
    ensures Scan(Prometheus, Unlines(lines), true, offset) == [] <==> NoneLocal(lines)
    decreases |lines|, 0
  {
    hide Scan, Entry, Regular, Unlines;
    var below := Below(lines[1..]);
    assert lines == [lines[0]] + lines[1..];
    UnlinesBelow(lines[0], lines[1..]);
    if Entry(Prometheus, lines[0]).Some? {
      LocalLineIsFound(lines[0], below);
      ScanHit(Prometheus, lines[0] + below, true, offset);
    } else {
      ScanPrometheusLine(lines[0], below, offset);
      ScanBelow(lines[1..], offset + |lines[0]|);
      assert forall i :: 0 < i < |lines| ==> lines[i] == lines[1..][i - 1];
    }
  }

  lemma {:induction false} ScanBelow(lines: seq<string>, offset: nat)
    requires EachRegular(lines)
    ensures Scan(Prometheus, Below(lines), false, offset) == [] <==> NoneLocal(lines)
    decreases |lines|, 1
  {
    hide Scan, Entry, Regular;
    if lines == [] {
      ScanEmpty(Prometheus, offset);
    } else {
      ScanNewline(Prometheus, Unlines(lines), offset);
      ScanFindsNone(lines, offset + 1);
    }
  }

  /** An active entry whose argument begins with 127.0.0.1. */
  ghost predicate NamesLocalPrefix(line: string) {
    && Entry(Active, line).Some?
    && var hit := Entry(Active, line).value;
       exists gap, word :: IsEntryText(line[hit.start..hit.end], gap, word) && LOCALHOST <= word
  }

  lemma {:induction false} DropsWord(a: string, b: string)
    requires NoSpace(a)
    ensures DropWord(a + b) == DropWord(b)
  {
    if a == "" {
      assert a + b == b;
    } else {
      assert (a + b)[1..] == a[1..] + b;
      DropsWord(a[1..], b);
    }
  }

  /** An entry whose argument begins with 127.0.0.1 is active, and is captured with all of its argument. */
  lemma {:induction false} LocalTextIsActive(line: string, blank: string, gap: string, rest: string)
    requires IsLocalText(line, blank, gap, rest)
    ensures NamesLocalPrefix(line)
  {
    hide IsEntryText, Entry, DropWord, NoSpace, IsLocalText, EntryText;
    var word := LOCALHOST + rest[..|rest| - |DropWord(rest)|];
    LocalGap(line, blank, gap, rest);
    LocalWord(gap, rest);
    EntryOfLocal(line, blank, gap, rest);
    LocalhostHasNoSpace();
    DropsWord(LOCALHOST, rest);
    CutLocal(line, blank, gap, rest, |DropWord(rest)|);
    var hit := Entry(Active, line).value;
    assert IsEntryText(line[hit.start..hit.end], gap, word) && LOCALHOST <= word;
  }

  lemma LocalGap(line: string, blank: string, gap: string, rest: string)
    requires IsLocalText(line, blank, gap, rest)
    ensures gap != "" && Strip(gap) == ""
  {
  }

  lemma {:induction false} LocalWord(gap: string, rest: string)
    requires gap != "" && Strip(gap) == ""
    ensures var word := LOCALHOST + rest[..|rest| - |DropWord(rest)|];
            IsEntryText(KEYWORD + gap + word, gap, word)
  {
    LocalhostHasNoSpace();
    WordInFront(rest);
    hide Strip, DropWord, IsSpace;
  }

  lemma LocalhostHasNoSpace()
    ensures NoSpace(LOCALHOST)
  {
  }

  lemma {:induction false} CutLocal(line: string, blank: string, gap: string, rest: string, n: nat)
    requires IsLocalText(line, blank, gap, rest) && n <= |rest|
    ensures |line| - n >= |blank| && line[|blank|..|line| - n] == KEYWORD + gap + (LOCALHOST + rest[..|rest| - n])
  {
  }

  /** On one line, the expression finds exactly the active entries whose argument begins with 127.0.0.1. */
  lemma {:induction false} LocalLineMeans(line: string)
    ensures Entry(Prometheus, line).Some? <==> NamesLocalPrefix(line)
  {
    hide IsEntryText;
    if Entry(Prometheus, line).Some? {
      hide Entry, IsLocalText;
      var blank, gap, rest := LocalShape(line);
      LocalTextIsActive(line, blank, gap, rest);
    }
    if NamesLocalPrefix(line) {
      var hit := Entry(Active, line).value;
      var gap, word :| IsEntryText(line[hit.start..hit.end], gap, word) && LOCALHOST <= word;
      StripIsSuffix(line);
      assert hit.start == |line| - |Strip(line)|;
      hide Entry;
      PrefixIsLocal(line, hit, gap, word);
    }
  }

  lemma {:induction false} PrefixIsLocal(line: string, hit: Hit, gap: string, word: string)
    requires hit.start <= hit.end <= |line| && Strip(line[..hit.start]) == ""
    requires IsEntryText(line[hit.start..hit.end], gap, word) && LOCALHOST <= word
    ensures Entry(Prometheus, line).Some?
  {
    hide Entry, Strip, NoSpace;
    var blank, text, rest := line[..hit.start], line[hit.start..hit.end], word[9..] + line[hit.end..];
    assert line == blank + text + line[hit.end..];
    assert word == LOCALHOST + word[9..];
    assert text == EntryText(gap) + word[9..];
    assert text + line[hit.end..] == EntryText(gap) + rest;
    JoinLocalText(blank, text + line[hit.end..], gap, rest);
    assert line == blank + (text + line[hit.end..]);
    EntryOfLocal(line, blank, gap, rest);
  }

  /** A regular file is left alone if and only if none of its active entries begins with 127.0.0.1. */
  lemma {:induction false} RevertLeavesAloneIff(lines: seq<string>)
    requires AllRegular(lines)
    ensures RevertContents(Unlines(lines)) == Ok(Unlines(lines))
            <==> forall i :: 0 <= i < |lines| ==> !NamesLocalPrefix(lines[i])
  {
    hide Scan, Entry, Regular, Unlines, NamesLocalPrefix, RevertContents, HasLocal, IsFirstLocal;
    ScanFindsNone(lines, 0);
    FirstFound(Unlines(lines), true, 0);
    var found, p, blank, gap, rest := RevertOutcome(Unlines(lines));
    forall i | 0 <= i < |lines| ensures Entry(Prometheus, lines[i]).Some? <==> NamesLocalPrefix(lines[i]) {
      LocalLineMeans(lines[i]);
    }
  }

  /** "nameserver", a line break and "nameserver 127.0.0.1" */
  const BROKEN_LINE := KEYWORD + "\n" + LOCAL_LINE

  lemma {:induction false} BrokenLineCut()
    ensures KEYWORD <= BROKEN_LINE && BROKEN_LINE[0] == 'n' && BROKEN_LINE[10..] == "\n" + LOCAL_LINE
  {
  }

  lemma {:induction false} BrokenLineParts()
    ensures Strip(BROKEN_LINE) == BROKEN_LINE && Strip("\n" + LOCAL_LINE) == LOCAL_LINE
  {
    hide Strip;
    BrokenLineCut();
    StripWord(BROKEN_LINE);
    LocalParts();
    StripBreak(LOCAL_LINE);
  }

  lemma {:induction false} StripBreak(s: string)
    ensures Strip("\n" + s) == Strip(s)
  {
    assert ("\n" + s)[1..] == s;
  }

  lemma {:induction false} DropKeyword()
    ensures DropWord(LOCAL_LINE) == LOCAL_ARGUMENT
  {
    assert NoSpace(KEYWORD) && LOCAL_LINE == KEYWORD + LOCAL_ARGUMENT;
    DropsWord(KEYWORD, LOCAL_ARGUMENT);
  }

  /**
   * Only on regular files are these the active entries of the file: here the active expression takes
   * the second keyword for the argument of the first, and the entry for 127.0.0.1 is none of its hits.
   */
  lemma {:induction false} HiddenLocal()
    ensures HasLocal(BROKEN_LINE, true)
    ensures ActiveNameservers(BROKEN_LINE) == [Found(KEYWORD + "\n" + KEYWORD, 0)]
  {
    BrokenLineCut();
    BrokenLineParts();
    DropKeyword();
    assert Strip("\n") == Strip("\n"[1..]) == "" && Strip(" ") == Strip(" "[1..]) == "";
    hide Strip, DropWord, Scan;
    assert "\n" + EntryText(" ") + "" == "\n" + LOCAL_LINE;
    assert IsLocalText(BROKEN_LINE[10..], "\n", " ", "");
    assert LocalAt(BROKEN_LINE, true, 10);
    assert Entry(Active, BROKEN_LINE) == Some(Hit(0, 21));
    ScanHit(Active, BROKEN_LINE, true, 0);
    BrokenLineEnds();
  }

  lemma {:induction false} BrokenLineEnds()
    ensures BROKEN_LINE[0..21] == KEYWORD + "\n" + KEYWORD && BROKEN_LINE[21..] == LOCAL_ARGUMENT
    ensures Scan(Active, LOCAL_ARGUMENT, false, 21) == []
  {
    hide Scan;
    assert BROKEN_LINE == KEYWORD + "\n" + KEYWORD + LOCAL_ARGUMENT;
    assert '\n' !in LOCAL_ARGUMENT && LOCAL_ARGUMENT + "" == LOCAL_ARGUMENT;
    ScanSkipsWithinLine(Active, LOCAL_ARGUMENT, "", 21);
    ScanEmpty(Active, 31);
  }

  /** A line for the local resolver: white space, the entry, and what follows it. */
  function LocalLineOf(blank: string, gap: string, tail: string): string {
    blank + EntryText(gap) + tail
  }

  ghost predicate IsLocalLine(blank: string, gap: string, tail: string) {
    IsLocalText(LocalLineOf(blank, gap, tail), blank, gap, tail) && Regular(LocalLineOf(blank, gap, tail))
  }

  /** The entry takes its newline with it: when nothing follows it on its line, and there is a line below. */
  predicate TakesNewline(tail: string, b: seq<string>) {
    tail == "" && b != []
  }

  /** The lines in which a further entry is looked for; one right below a taken newline is overlooked. */
  function Searched(tail: string, b: seq<string>): seq<string> {
    if TakesNewline(tail, b) then b[1..] else b
  }

  /** What is left of the file without the entry. */
  function Remaining(a: seq<string>, blank: string, tail: string, b: seq<string>): (r: seq<string>)
    ensures r != []
  {
    if TakesNewline(tail, b) then a + [blank + b[0]] + b[1..] else a + [blank + tail] + b
  }

  lemma {:induction false} NoNewlineInTail(blank: string, gap: string, tail: string)
    requires IsLocalLine(blank, gap, tail)
    ensures '\n' !in tail
  {
    hide Strip, EntryText;
    var line := LocalLineOf(blank, gap, tail);
    assert forall i :: 0 <= i < |tail| ==> tail[i] == line[|line| - |tail| + i];
  }

  /** The text behind the entry. */
  function AfterEntry(tail: string, b: seq<string>): string {
    if TakesNewline(tail, b) then Unlines(b) else tail + Below(b)
  }

  lemma {:induction false} NewlineTaken(tail: string, b: seq<string>)
    requires '\n' !in tail
    ensures var newline := if TakesNewline(tail, b) then "\n" else "";
            NewlineOf(tail + Below(b)) == newline && tail + Below(b) == newline + AfterEntry(tail, b)
  {
    hide Unlines;
    if tail != "" {
      assert (tail + Below(b))[0] == tail[0];
    } else {
      assert tail + Below(b) == Below(b);
    }
  }

  lemma {:induction false} DropFront(front: string, s: string)
    ensures (front + s)[|front|..] == s
  {
  }

  lemma {:induction false} ScanSplit(s: string, blank: string, gap: string, newline: string, after: string, offset: nat)
    requires IsLocalText(s, blank, gap, newline + after) && NewlineOf(newline + after) == newline
    ensures Scan(Prometheus, s, true, offset)
            == [Found(EntryText(gap) + newline, offset + |blank|)]
               + Scan(Prometheus, after, false, offset + |blank| + |gap| + 19 + |newline|)
  {
    hide *;
    ScanAtLocal(s, blank, gap, newline + after, true, offset);
    DropFront(newline, after);
  }

  lemma {:induction false} ScanLocalLine(blank: string, gap: string, tail: string, b: seq<string>, offset: nat)
    requires IsLocalLine(blank, gap, tail)
    ensures var newline := if TakesNewline(tail, b) then "\n" else "";
            && '\n' !in tail
            && Scan(Prometheus, LocalLineOf(blank, gap, tail) + Below(b), true, offset)
               == [Found(EntryText(gap) + newline, offset + |blank|)]
                  + Scan(Prometheus, AfterEntry(tail, b), false, offset + |blank| + |gap| + 19 + |newline|)
  {
    hide *;
    NoNewlineInTail(blank, gap, tail);
    NewlineTaken(tail, b);
    LocalLineThen(blank, gap, tail, Below(b));
    var newline := if TakesNewline(tail, b) then "\n" else "";
    ScanSplit(LocalLineOf(blank, gap, tail) + Below(b), blank, gap, newline, AfterEntry(tail, b), offset);
  }

  lemma {:induction false} ScanRest(tail: string, b: seq<string>, offset: nat)
    requires '\n' !in tail && EachRegular(b)
    ensures Scan(Prometheus, AfterEntry(tail, b), false, offset) == [] <==> NoneLocal(Searched(tail, b))
  {
    hide Scan, Entry, Unlines, NoneLocal, Regular, Below;
    if TakesNewline(tail, b) {
      ScanSecondLine(b, offset);
    } else {
      BelowIsLineEnd(b);
      ScanSkipsWithinLine(Prometheus, tail, Below(b), offset);
      ScanBelow(b, offset + |tail|);
    }
  }

  lemma BelowIsLineEnd(b: seq<string>)
    ensures LineEnd(Below(b))
  {
  }

  lemma {:induction false} LocalLineThen(blank: string, gap: string, tail: string, below: string)
    requires IsLocalLine(blank, gap, tail)
    ensures IsLocalText(LocalLineOf(blank, gap, tail) + below, blank, gap, tail + below)
  {
    hide Strip, Regular;
    assert LocalLineOf(blank, gap, tail) + below == blank + EntryText(gap) + (tail + below);
  }

  lemma NoNewlineInLine(line: string)
    requires Regular(line)
    ensures '\n' !in line
  {
  }

  lemma {:induction false} ScanSecondLine(b: seq<string>, offset: nat)
    requires b != [] && EachRegular(b)
    ensures Scan(Prometheus, Unlines(b), false, offset) == [] <==> NoneLocal(b[1..])
  {
    hide Scan, Entry, Unlines, NoneLocal, Regular, Below;
    assert b == [b[0]] + b[1..];
    NoNewlineInLine(b[0]);
    UnlinesBelow(b[0], b[1..]);
    ScanSkipsWithinLine(Prometheus, b[0], Below(b[1..]), offset);
    ScanBelow(b[1..], offset + |b[0]|);
  }

  lemma {:induction false} RemainingText(a: seq<string>, blank: string, gap: string, tail: string, b: seq<string>)
    ensures var entry := EntryText(gap) + (if TakesNewline(tail, b) then "\n" else "");
            var s := Unlines(a + [LocalLineOf(blank, gap, tail)] + b);
            var start := |Above(a)| + |blank|;
            && s == Above(a) + (LocalLineOf(blank, gap, tail) + Below(b))
            && start + |entry| <= |s|
            && RemoveSpan(s, start, |entry|) == Unlines(Remaining(a, blank, tail, b))
  {
    hide Unlines, Above, Below;
    var line := LocalLineOf(blank, gap, tail);
    assert a + [line] + b == a + ([line] + b);
    UnlinesAbove(a, [line] + b);
    UnlinesBelow(line, b);
    if TakesNewline(tail, b) {
      assert a + [blank + b[0]] + b[1..] == a + ([blank + b[0]] + b[1..]);
      UnlinesAbove(a, [blank + b[0]] + b[1..]);
      UnlinesBelow(blank + b[0], b[1..]);
      assert b == [b[0]] + b[1..];
      UnlinesBelow(b[0], b[1..]);
      RemoveMiddle(Above(a), blank, EntryText(gap) + "\n", b[0] + Below(b[1..]));
      BelowMeans(b);
      assert line + Below(b) == blank + (EntryText(gap) + "\n") + (b[0] + Below(b[1..]));
      assert blank + (b[0] + Below(b[1..])) == blank + b[0] + Below(b[1..]);
    } else {
      assert a + [blank + tail] + b == a + ([blank + tail] + b);
      UnlinesAbove(a, [blank + tail] + b);
      UnlinesBelow(blank + tail, b);
      RemoveMiddle(Above(a), blank, EntryText(gap) + "", tail + Below(b));
      assert line + Below(b) == blank + (EntryText(gap) + "") + (tail + Below(b));
      assert blank + (tail + Below(b)) == blank + tail + Below(b);
    }
  }

  lemma BelowMeans(b: seq<string>)
    requires b != []
    ensures Below(b) == "\n" + Unlines(b)
  {
  }

  lemma {:induction false} RemoveMiddle(above: string, blank: string, entry: string, rest: string)
    ensures var s := above + (blank + entry + rest);
            RemoveSpan(s, |above| + |blank|, |entry|) == above + (blank + rest)
  {
    var s := above + (blank + entry + rest);
    assert s[..|above| + |blank|] == above + blank;
    assert s[|above| + |blank| + |entry|..] == rest;
  }

  /**
   * Reverting a regular file, its first line for the local resolver standing anywhere: the entry
   * goes, and unless a further one is found every entry that is left loses its first character.
   */
  lemma {:induction false} RevertLines(a: seq<string>, blank: string, gap: string, tail: string, b: seq<string>)
    requires EachRegular(a) && NoneLocal(a) && IsLocalLine(blank, gap, tail) && EachRegular(b)
    ensures RevertContents(Unlines(a + [LocalLineOf(blank, gap, tail)] + b))
            == if !NoneLocal(Searched(tail, b)) then Err(Nonsense)
               else var left := Unlines(Remaining(a, blank, tail, b));
                    if ExistingNameservers(left) == [] then Err(NothingToRevertTo)
                    else Ok(EditExisting(RemoveChar, left))
  {
    hide Scan, Entry, Unlines, Above, Below, IsLocalLine, LocalLineOf, NoneLocal, EditExisting, ExistingNameservers;
    RemainingText(a, blank, gap, tail, b);
    ScanAbove(a, LocalLineOf(blank, gap, tail) + Below(b), 0);
    ScanLocalLine(blank, gap, tail, b, |Above(a)|);
    ScanRest(tail, b, |Above(a)| + |blank| + |gap| + 19 + if TakesNewline(tail, b) then 1 else 0);
  }

  /** Reversion takes a character from every entry it finds; an entry that is still active is lost. */
  lemma {:induction false} RemoveCharKillsActive(line: string)
    requires Entry(Active, line).Some?
    ensures Entry(Existing, EditLine(RemoveChar, line)) == None && Entry(Active, EditLine(RemoveChar, line)) == None
  {
    var t := Strip(line);
    var k := |line| - |t|;
    ActiveIsExisting(line);
    StripCut(line);
    assert KEYWORD <= t && t[1..][0] == 'a';
    StripWord(t[1..]);
    hide Strip;
    assert EditLine(RemoveChar, line) == EditAt(RemoveChar, line, k);
  }

  /** What a reversion makes of a commented entry: its text without the comment sign. */
  function FormerComment(line: string): seq<string> {
    match Entry(Existing, line)
    case None => []
    case Some(hit) => if Entry(Active, line).Some? then [] else [Strip(line[hit.start + 1..hit.end])]
  }

  /** The entries that were comments, in order. */
  function FormerComments(lines: seq<string>): seq<string> {
    if lines == [] then [] else FormerComment(lines[0]) + FormerComments(lines[1..])
  }

  lemma {:induction false} StripFront(s: string, n: nat)
    requires n <= |Strip(s)|
    ensures Strip(s[..|s| - n]) == if n == |Strip(s)| then "" else Strip(s)[..|Strip(s)| - n]
  {
    if s != "" && IsSpace(s[0]) {
      StripFront(s[1..], n);
      assert s[..|s| - n][1..] == s[1..][..|s| - 1 - n];
    } else if n == |s| {
      assert s[..0] == "";
    } else {
      assert s[..|s| - n][0] == s[0];
    }
  }

  lemma {:induction false} CommentedEntry(line: string)
    requires Entry(Existing, line).Some? && Entry(Active, line) == None
    ensures Strip(line) != "" && Strip(line)[0] == '#'
    ensures Entry(Existing, line).value.start == |line| - |Strip(line)|
  {
    if Strip(line)[0] != '#' {
      UncommentedEntry(line);
    }
  }

  lemma {:induction false} StripCut(line: string)
    requires Strip(line) != ""
    ensures var k := |line| - |Strip(line)|;
            k < |line| && Strip(EditAt(RemoveChar, line, k)) == Strip(Strip(line)[1..])
  {
    var t := Strip(line);
    var k := |line| - |t|;
    StripIsSuffix(line);
    assert EditAt(RemoveChar, line, k) == line[..k] + t[1..];
    StripAppend(line[..k], t[1..]);
  }

  lemma {:induction false} UncommentedHit(line: string) returns (n: nat)
    requires Entry(Existing, line).Some? && Entry(Active, line) == None
    ensures var cut := EditLine(RemoveChar, line); var u := Uncomment(Existing, Strip(line));
            && |cut| + 1 == |line|
            && Strip(cut) == u && u == Strip(Strip(line)[1..]) && n < |u|
            && Entry(Existing, line) == Some(Hit(|line| - |Strip(line)|, |line| - n))
            && Entry(Active, cut) == Some(Hit(|cut| - |u|, |cut| - n))
  {
    CommentedEntry(line);
    StripCut(line);
    hide Strip;
    var u := Uncomment(Existing, Strip(line));
    assert AfterKeyword(Active, u) == AfterKeyword(Existing, u);
    n := |AfterKeyword(Existing, u).value|;
  }

  /** A commented entry, uncommented. */
  lemma {:induction false} UncommentedText(line: string, offset: nat)
    requires Entry(Existing, line).Some? && Entry(Active, line) == None
    ensures Texts(LineHit(Active, EditLine(RemoveChar, line), offset)) == FormerComment(line)
  {
    hide Strip, AfterKeyword, Entry, EditLine, Uncomment, Texts;
    var t := Strip(line);
    var k := |line| - |t|;
    var cut := EditLine(RemoveChar, line);
    var n := UncommentedHit(line);
    var u := Strip(cut);
    StripIsSuffix(line);
    StripIsSuffix(cut);
    StripFront(t[1..], n);
    CutInside(cut, u, n);
    CutInside(line, t, n);
    assert line[k + 1..|line| - n] == line[k..|line| - n][1..] == t[1..][..|t| - 1 - n];
    OneText(cut[|cut| - |u|..|cut| - n], offset + |cut| - |u|);
  }

  lemma OneText(text: string, start: nat)
    ensures Texts([Found(text, start)]) == [text]
  {
    assert [Found(text, start)][1..] == [];
  }

  lemma {:induction false} RevertedLine(line: string, offset: nat)
    ensures Texts(LineHit(Active, EditLine(RemoveChar, line), offset)) == FormerComment(line)
  {
    if Entry(Existing, line) == None {
      if Entry(Active, line).Some? {
        ActiveIsExisting(line);
      }
    } else if Entry(Active, line).Some? {
      RemoveCharKillsActive(line);
    } else {
      UncommentedText(line, offset);
    }
    hide Entry;
  }

  lemma {:induction false} CutHasNoNewline(line: string, k: nat)
    requires '\n' !in line && k < |line|
    ensures '\n' !in EditAt(RemoveChar, line, k)
  {
  }

  lemma {:induction false} RevertedLineIsRegular(line: string)
    requires Regular(line)
    ensures Regular(EditLine(RemoveChar, line))
  {
    if Entry(Existing, line).Some? {
      CutHasNoNewline(line, Entry(Existing, line).value.start);
      var cut := EditLine(RemoveChar, line);
      if Entry(Active, line).Some? {
        ActiveIsExisting(line);
        StripCut(line);
        var t := Strip(line);
        assert t[1..][0] == 'a';
        StripWord(t[1..]);
        assert !(KEYWORD <= t[1..]);
      } else {
        var n := UncommentedHit(line);
        var u := Strip(cut);
        assert KEYWORD <= u && u[0] == 'n';
      }
    }
  }

  lemma {:induction false} RevertedFile(lines: seq<string>, offset: nat)
    requires EachRegular(lines)
    ensures EachRegular(EditLines(RemoveChar, lines))
    ensures Texts(FileHits(Active, EditLines(RemoveChar, lines), offset)) == FormerComments(lines)
    decreases |lines|
  {
    hide Regular, EditLine, LineHit, FormerComment;
    if lines == [] {
    } else {
      var edited := EditLines(RemoveChar, lines);
      assert edited[0] == EditLine(RemoveChar, lines[0]) && edited[1..] == EditLines(RemoveChar, lines[1..]);
      RevertedLine(lines[0], offset);
      RevertedLineIsRegular(lines[0]);
      hide EditLines, Texts, FileHits;
      TextsOfFile(edited, offset);
      RevertedFile(lines[1..], offset + |edited[0]| + 1);
    }
  }

  lemma {:induction false} RegularBelowBlank(blank: string, line: string)
    requires Strip(blank) == "" && '\n' !in blank && Regular(line)
    ensures Regular(blank + line)
  {
    StripAppend(blank, line);
    hide Strip;
  }

  lemma {:induction false} RemainingIsRegular(a: seq<string>, blank: string, gap: string, tail: string, b: seq<string>)
    requires EachRegular(a) && IsLocalLine(blank, gap, tail) && EachRegular(b)
    requires TakesNewline(tail, b) || Regular(blank + tail)
    ensures AllRegular(Remaining(a, blank, tail, b))
  {
    if TakesNewline(tail, b) {
      var line := LocalLineOf(blank, gap, tail);
      assert forall i :: 0 <= i < |blank| ==> blank[i] == line[i];
      RegularBelowBlank(blank, b[0]);
    }
    hide Regular;
  }

  /**
   * Reverting a regular file in which one line for the local resolver is found, standing anywhere:
   * one pass over what is left. The nameservers active afterwards are exactly those that were
   * comments, in order; one that was still active has lost its first letter, and is lost.
   */
  lemma {:induction false} RevertFile(a: seq<string>, blank: string, gap: string, tail: string, b: seq<string>)
    requires EachRegular(a) && NoneLocal(a) && IsLocalLine(blank, gap, tail)
    requires EachRegular(b) && NoneLocal(Searched(tail, b)) && (TakesNewline(tail, b) || Regular(blank + tail))
    ensures var left := Remaining(a, blank, tail, b);
            var after := Unlines(EditLines(RemoveChar, left));
            && RevertContents(Unlines(a + [LocalLineOf(blank, gap, tail)] + b))
               == (if FileHits(Existing, left, 0) == [] then Err(NothingToRevertTo) else Ok(after))
            && Texts(ActiveNameservers(after)) == FormerComments(left)
  {
    hide Regular, Unlines, EditLines, FileHits, Texts, FormerComments, RevertContents, EditExisting, Remaining,
      LocalLineOf, IsLocalLine, NoneLocal, Scan;
    var left := Remaining(a, blank, tail, b);
    RemainingIsRegular(a, blank, gap, tail, b);
    RevertLines(a, blank, gap, tail, b);
    EditExistingFile(RemoveChar, left);
    RevertedFile(left, 0);
    ScanFile(Active, EditLines(RemoveChar, left), 0);
  }

  /** The line that a subversion appends, standing anywhere but last. */
  lemma {:induction false} RevertAppended(a: seq<string>, b: seq<string>)
    requires EachRegular(a) && NoneLocal(a) && b != [] && EachRegular(b) && NoneLocal(b)
    requires FileHits(Existing, a + b, 0) != []
    ensures var after := Unlines(EditLines(RemoveChar, a + b));
            && RevertContents(Unlines(a + [LOCAL_LINE] + b)) == Ok(after)
            && Texts(ActiveNameservers(after)) == FormerComments(a + b)
  {
    hide Regular, Unlines, EditLines, FileHits, Texts, FormerComments, RevertContents, ActiveNameservers, IsLocalLine,
      LocalLineOf, Entry;
    LocalLineIsLocal();
    assert "" + b[0] == b[0] && a + [b[0]] + b[1..] == a + b;
    RevertFile(a, "", " ", "", b);
  }

  lemma {:induction false} LocalLineIsLocal()
    ensures IsLocalLine("", " ", "") && LocalLineOf("", " ", "") == LOCAL_LINE
  {
    LocalLine();
    hide Regular;
    assert LocalLineOf("", " ", "") == LOCAL_LINE;
    assert Strip(" ") == Strip(" "[1..]) == "";
  }

  /** Line by line: an entry is active after the reversion exactly when it was a comment before. */
  lemma {:induction false} RevertActivatesIff(line: string)
    requires Entry(Existing, line).Some?
    ensures Entry(Active, EditLine(RemoveChar, line)).Some? <==> Entry(Active, line) == None
  {
    if Entry(Active, line).Some? {
      RemoveCharKillsActive(line);
    } else {
      var n := UncommentedHit(line);
    }
    hide Entry;
  }

  // Files that a reversion spoils

  /** "nameserver " and one word. */
  function Plain(word: string): string {
    KEYWORD + " " + word
  }

  ghost predicate IsWord(word: string) {
    word != "" && NoSpace(word)
  }

  lemma {:induction false} PlainParts(word: string)
    requires IsWord(word)
    ensures Strip(Plain(word)) == Plain(word) && Plain(word)[10..] == " " + word && Strip(" " + word) == word
    ensures KEYWORD <= Plain(word) && DropWord(word) == ""
  {
    StripVisible(word);
    DropWholeWord(word);
    assert (" " + word)[1..] == word;
    assert Plain(word)[0] == 'n';
    StripWord(Plain(word));
    assert Plain(word)[10..] == " " + word;
  }

  lemma {:induction false} PlainLine(word: string)
    requires IsWord(word)
    ensures Regular(Plain(word)) && Entry(Active, Plain(word)) == Entry(Existing, Plain(word)) == Some(Hit(0, |Plain(word)|))
    ensures Entry(Prometheus, Plain(word)).Some? <==> LOCALHOST <= word
    ensures EditLine(RemoveChar, Plain(word)) == "ameserver " + word
  {
    PlainParts(word);
    var line := Plain(word);
    assert line[0] == 'n' && line[1..] == "ameserver " + word;
    assert '\n' !in line;
    hide Strip, DropWord;
  }

  lemma {:induction false} PlainLocalLine(tail: string)
    requires NoSpace(tail)
    ensures IsLocalLine("", " ", tail) && LocalLineOf("", " ", tail) == Plain(LOCALHOST + tail)
  {
    assert NoSpace(LOCALHOST);
    PlainLine(LOCALHOST + tail);
    hide Regular;
    assert "" + (KEYWORD + " " + LOCALHOST) + tail == KEYWORD + " " + (LOCALHOST + tail);
    assert Strip(" ") == Strip(" "[1..]) == "";
  }

  lemma {:induction false} NoTexts(hits: seq<Found>)
    requires Texts(hits) == []
    ensures hits == []
  {
  }

  /**
   * A nameserver below the local resolver, as a DHCP client may have put it there after a
   * subversion, loses its first letter; none is active any more. The file is not refused even when
   * that nameserver is 127.0.0.1 once more.
   */
  lemma {:induction false} RevertLosesActive(server: string)
    requires IsWord(server)
    ensures RevertContents(LOCAL_LINE + "\n" + Plain(server)) == Ok("ameserver " + server)
    ensures ActiveNameservers("ameserver " + server) == []
  {
    var line := Plain(server);
    var b := [line];
    PlainLine(server);
    LocalLineIsLocal();
    assert "" + line == line && b[1..] == [] && [] + [line] + [] == b && [] + [LOCAL_LINE] + b == [LOCAL_LINE, line];
    assert [LOCAL_LINE, line][1..] == b && Unlines([LOCAL_LINE, line]) == LOCAL_LINE + "\n" + line;
    hide Entry, Regular, Plain, EditLine, RevertContents, Scan, IsLocalLine, LocalLineOf, FileHits;
    assert EditLines(RemoveChar, b) == ["ameserver " + server] && Unlines(["ameserver " + server]) == "ameserver " + server;
    SomeFileHit(Existing, b, 0, 0);
    assert FormerComments(b) == [];
    RevertFile([], "", " ", "", b);
    NoTexts(ActiveNameservers("ameserver " + server));
  }

  lemma {:induction false} TwoLines(x: string, y: string)
    ensures Unlines([x, y]) == x + "\n" + y
    ensures EditLines(RemoveChar, [x, y]) == [EditLine(RemoveChar, x), EditLine(RemoveChar, y)]
    ensures FormerComments([x, y]) == FormerComment(x) + FormerComment(y)
  {
    hide EditLine, FormerComment;
    assert [x, y][1..] == [y] && [y][1..] == [];
    assert EditLines(RemoveChar, [y]) == [EditLine(RemoveChar, y)] && FormerComments([y]) == FormerComment(y) + [];
  }

  lemma {:induction false} NumberIsNoEntry(digits: string)
    requires IsWord(digits) && IsDigit(digits[0])
    ensures Regular(digits) && Entry(Existing, digits) == None && Entry(Active, digits) == None
  {
    StripVisible(digits);
    assert !(KEYWORD <= digits) && digits[0] != '#';
  }

  /**
   * A file that was never subverted, with a nameserver whose address only begins with 127.0.0.1: the
   * beginning is cut off, and the nameserver below it loses its first letter.
   */
  lemma {:induction false} RevertMistakesAddress(digits: string, server: string)
    requires IsWord(digits) && IsDigit(digits[0]) && IsWord(server) && !(LOCALHOST <= server)
    ensures var after := digits + "\n" + ("ameserver " + server);
            && RevertContents(Plain(LOCALHOST + digits) + "\n" + Plain(server)) == Ok(after)
            && ActiveNameservers(after) == []
  {
    var first, line, after := Plain(LOCALHOST + digits), Plain(server), "ameserver " + server;
    var b, left := [line], [digits, line];
    PlainLine(server);
    PlainLocalLine(digits);
    NumberIsNoEntry(digits);
    assert EditLine(RemoveChar, digits) == digits && FormerComment(digits) == [] && FormerComment(line) == [];
    hide Entry, Regular, Plain, EditLine, RevertContents, Scan, IsLocalLine, LocalLineOf, FileHits, Unlines, EditLines,
      FormerComment, FormerComments;
    assert "" + digits == digits && [] + [digits] + b == left && [] + [first] + b == [first, line];
    TwoLines(first, line);
    TwoLines(digits, line);
    TwoLines(digits, after);
    SomeFileHit(Existing, left, 1, 0);
    RevertFile([], "", " ", digits, b);
    NoTexts(ActiveNameservers(digits + "\n" + after));
  }

  lemma SmallWords()
    ensures IsWord("1") && IsDigit("1"[0]) && IsWord("8.8.8.8") && !(LOCALHOST <= "8.8.8.8")
  {
  }

  lemma {:induction false} SmallLines()
    ensures Plain(LOCALHOST + "1") == "nameserver 127.0.0.11" && Plain("8.8.8.8") == "nameserver 8.8.8.8"
    ensures "ameserver " + "8.8.8.8" == "ameserver 8.8.8.8"
  {
  }

  /** The smallest such file. */
  lemma {:induction false} RevertSpoilsFile()
    ensures RevertContents("nameserver 127.0.0.11" + "\n" + "nameserver 8.8.8.8")
            == Ok("1" + "\n" + "ameserver 8.8.8.8")
  {
    hide *;
    SmallWords();
    SmallLines();
    RevertMistakesAddress("1", "8.8.8.8");
  }

  // Undoing a subversion

  lemma {:induction false} UnlinesWithBlank(lines: seq<string>)
    requires lines != []
    ensures Unlines(lines + [""]) == Unlines(lines) + "\n"
  {
    UnlinesAppend(lines, [""]);
    assert Unlines([""]) == "";
  }

  lemma {:induction false} EditLinesSnocBlank(edit: Edit, lines: seq<string>)
    ensures EditLines(edit, lines + [""]) == EditLines(edit, lines) + [""]
  {
    if lines == [] {
      EntryOfNothing(Existing);
      assert EditLines(edit, ([] + [""])[1..]) == [];
    } else {
      hide EditLine;
      assert (lines + [""])[1..] == lines[1..] + [""];
      EditLinesSnocBlank(edit, lines[1..]);
    }
  }

  /**
   * Round trip: on every line-regular file that `subvert` changes, `revert` afterwards gives back
   * the text with one more newline at its end and one more hash on each nameserver line that was
   * commented already, and the same active nameservers.
   */
  lemma {:induction false} RoundTrip(contents: string)
    requires RegularFile(contents)
    requires SubvertContents(contents).Ok? && SubvertContents(contents).value != contents
    ensures var after := RevertContents(SubvertContents(contents).value);
            && after == Ok(Unlines(Map(Restored, Lines(contents))) + "\n")
            && Texts(ActiveNameservers(after.value)) == Texts(ActiveNameservers(contents))
  {
    hide Scan, Regular, Entry, SubvertContents, RevertContents, EditLines, Restored, Unlines, Split, FileHits;
    var lines := Lines(contents);
    SubvertIsOnePass(contents);
    HashedLines(lines);
    SomethingToRevertTo(lines);
    RevertHashed(lines);
    ActiveOfRestored(lines);
    ScanFile(Active, lines, 0);
  }

  lemma {:induction false} RevertHashed(lines: seq<string>)
    requires AllRegular(lines)
    requires FileHits(Existing, EditLines(AddHash, lines), 0) != []
    ensures RevertContents(Unlines(EditLines(AddHash, lines)) + SUFFIX) == Ok(Unlines(Map(Restored, lines)) + "\n")
  {
    hide Regular, Entry, EditLines, Restored, Unlines, Map, FileHits, RevertContents, Texts, ActiveNameservers;
    var hashed := EditLines(AddHash, lines);
    HashedLines(lines);
    SuffixIsLines(hashed);
    assert hashed + [LOCAL_LINE, ""] == hashed + [LOCAL_LINE] + [""];
    EntryOfNothing(Prometheus);
    LocalLine();
    FileHitsAppend(Existing, hashed, [""], 0);
    RevertAppended(hashed, [""]);
    EditLinesSnocBlank(RemoveChar, hashed);
    UnlinesWithBlank(Map(Restored, lines));
  }


  lemma {:induction false} ActiveOfRestored(lines: seq<string>)
    requires AllRegular(lines)
    ensures Texts(ActiveNameservers(Unlines(Map(Restored, lines)) + "\n")) == Texts(FileHits(Active, lines, 0))
  {
    var restored := Map(Restored, lines);
    var all := restored + [""];
    UnlinesWithBlank(restored);
    LocalLine();
    hide Scan, Regular, Entry, Restored, Unlines, Map, EditLine;
    forall i | 0 <= i < |all| ensures Regular(all[i]) {
      if i < |lines| {
        MapAt(Restored, lines, i);
        RestoredLine(lines[i], 0, 0);
      }
    }
    ScanFile(Active, all, 0);
    TextsOfRestored(lines, 0, 0);
  }

  lemma {:induction false} RestoredLine(line: string, a: nat, b: nat)
    requires Regular(line)
    ensures Regular(Restored(line))
    ensures Texts(LineHit(Active, Restored(line), a)) == Texts(LineHit(Active, line, b))
  {
    HashedLine(line);
    hide Regular, Entry;
  }

  lemma {:induction false} TextsOfFile(lines: seq<string>, offset: nat)
    requires lines != []
    ensures Texts(FileHits(Active, lines, offset))
            == Texts(LineHit(Active, lines[0], offset)) + Texts(FileHits(Active, lines[1..], offset + |lines[0]| + 1))
  {
    hide LineHit, Texts;
    TextsAppend(LineHit(Active, lines[0], offset), FileHits(Active, lines[1..], offset + |lines[0]| + 1));
  }

  lemma {:induction false} RestoredFront(lines: seq<string>)
    requires lines != []
    ensures var all := Map(Restored, lines) + [""];
            all[0] == Restored(lines[0]) && all[1..] == Map(Restored, lines[1..]) + [""]
  {
    hide Restored;
    assert Map(Restored, lines)[1..] == Map(Restored, lines[1..]);
    MapAt(Restored, lines, 0);
  }

  lemma {:induction false} TextsOfRestored(lines: seq<string>, a: nat, b: nat)
    requires forall i :: 0 <= i < |lines| ==> Regular(lines[i])
    ensures Texts(FileHits(Active, Map(Restored, lines) + [""], a)) == Texts(FileHits(Active, lines, b))
    decreases |lines|
  {
    hide Regular, Entry, Restored, LineHit;
    if lines == [] {
      EntryOfNothing(Active);
      assert Map(Restored, lines) + [""] == [""];
      NoFileHits(Active, [""], a);
    } else {
      hide Texts, FileHits;
      var line := lines[0];
      var all := Map(Restored, lines) + [""];
      RestoredFront(lines);
      hide Map;
      RestoredLine(line, a, b);
      TextsOfRestored(lines[1..], a + |Restored(line)| + 1, b + |line| + 1);
      TextsOfFile(all, a);
      TextsOfFile(lines, b);
    }
  }

  lemma {:induction false} SomethingToRevertTo(lines: seq<string>)
    requires AllRegular(lines) && FileHits(Active, lines, 0) != []
    ensures FileHits(Existing, EditLines(AddHash, lines), 0) != []
  {
    HashedLines(lines);
    hide Regular, Entry, EditLines, Restored;
    if forall i :: 0 <= i < |lines| ==> Entry(Active, lines[i]) == None {
      NoFileHits(Active, lines, 0);
    }
    var i :| 0 <= i < |lines| && Entry(Active, lines[i]).Some?;
    SomeFileHit(Existing, EditLines(AddHash, lines), i, 0);
  }

  lemma {:induction false} SomeFileHit(pattern: Pattern, lines: seq<string>, i: nat, offset: nat)
    requires i < |lines| && Entry(pattern, lines[i]).Some?
    ensures FileHits(pattern, lines, offset) != []
  {
    hide Entry;
    if i == 0 {
    } else {
      SomeFileHit(pattern, lines[1..], i - 1, offset + |lines[0]| + 1);
    }
  }
}
