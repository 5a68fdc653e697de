/**
 * Inspecting resolv.conf (dns_utility/src/resolv_conf_dns_modifier.rs), and what its expressions match,
 * said with the parts of a text.
 */
module ResolvInspect {
  import opened Basics
  import opened ResolvConf

  // What the expressions match

  /** In ASCII, white space is the space and the five control characters from tab to carriage return. */
  lemma SpacesAre(c: char)
    requires c as int < 128
    ensures IsSpace(c) <==> c == ' ' || '\t' <= c <= '\r'
  {
  }

  /**
   * White space, for the expression that allows it a comment sign with white space behind it, the
   * keyword, white space and a word; then the end of the text or the white space that ends the word.
   */
  ghost predicate IsEntryOf(pattern: Pattern, s: string, blank: string, hash: string, gap: string, word: string,
                            rest: string)
  {
    && s == blank + (hash + (KEYWORD + (gap + (word + rest))))
    && Strip(blank) == "" && gap != "" && Strip(gap) == ""
    && (hash == "" || (pattern == Existing && hash[0] == '#' && Strip(hash[1..]) == ""))
    && NoSpace(word) && (rest == "" || IsSpace(rest[0])) && (word == "" ==> rest == "")
  }

  lemma {:induction false} StripVisibleFront(s: string)
    requires s != "" && !IsSpace(s[0])
    ensures Strip(s) == s
  {
  }

  lemma {:induction false} DropsTheWord(word: string, rest: string)
    requires NoSpace(word) && (rest == "" || IsSpace(rest[0]))
    ensures DropWord(word + rest) == rest
  {
    if word == "" {
      assert word + rest == rest;
    } else {
      assert (word + rest)[1..] == word[1..] + rest;
      DropsTheWord(word[1..], rest);
    }
  }

  lemma {:induction false} KeywordFront(more: string)
    ensures (KEYWORD + more)[0] == 'n' && (KEYWORD + more)[10..] == more && KEYWORD <= KEYWORD + more
    ensures Strip(KEYWORD + more) == KEYWORD + more
  {
    assert (KEYWORD + more)[0] == 'n';
    StripVisibleFront(KEYWORD + more);
  }

  lemma {:induction false} AfterEntryKeyword(pattern: Pattern, gap: string, word: string, rest: string)
    requires pattern != Prometheus && gap != "" && Strip(gap) == ""
    requires NoSpace(word) && (rest == "" || IsSpace(rest[0])) && (word == "" ==> rest == "")
    ensures AfterKeyword(pattern, KEYWORD + (gap + (word + rest))) == Some(rest)
  {
    KeywordFront(gap + (word + rest));
    StripAppend(gap, word + rest);
    assert Strip(word + rest) == word + rest by {
      if word == "" {
        assert word + rest == "";
      } else {
        assert (word + rest)[0] == word[0];
        StripVisibleFront(word + rest);
      }
    }
    DropsTheWord(word, rest);
    hide Strip, DropWord;
  }

  lemma {:induction false} StripEntry(pattern: Pattern, blank: string, hash: string, more: string)
    requires Strip(blank) == ""
    requires hash == "" || (pattern == Existing && hash[0] == '#' && Strip(hash[1..]) == "")
    ensures Strip(blank + (hash + (KEYWORD + more))) == hash + (KEYWORD + more)
    ensures Uncomment(pattern, hash + (KEYWORD + more)) == KEYWORD + more
  {
    var u := KEYWORD + more;
    var t := hash + u;
    KeywordFront(more);
    StripAppend(blank, t);
    if hash == "" {
      assert t == u;
    } else {
      assert t[0] == '#' && t[1..] == hash[1..] + u;
      StripVisibleFront(t);
      StripAppend(hash[1..], u);
    }
    hide Strip;
  }

  /** Every text of that shape is matched, and the match is the entry and no more. */
  lemma {:induction false} EntryIsMatched(pattern: Pattern, s: string, blank: string, hash: string, gap: string,
                                          word: string, rest: string)
    requires pattern != Prometheus && IsEntryOf(pattern, s, blank, hash, gap, word, rest)
    ensures Entry(pattern, s) == Some(Hit(|blank|, |s| - |rest|))
  {
    StripEntry(pattern, blank, hash, gap + (word + rest));
    AfterEntryKeyword(pattern, gap, word, rest);
    hide Strip, AfterKeyword, Uncomment, NoSpace;
  }

  lemma {:induction false} SplitBlank(s: string) returns (blank: string)
    ensures s == blank + Strip(s) && Strip(blank) == ""
  {
    StripIsSuffix(s);
    hide Strip;
    blank := s[..|s| - |Strip(s)|];
  }

  lemma {:induction false} SplitWord(s: string) returns (word: string)
    ensures s == word + DropWord(s) && NoSpace(word)
    ensures DropWord(s) == "" || IsSpace(DropWord(s)[0])
  {
    if s == "" || IsSpace(s[0]) {
      word := "";
      assert s == "" + s;
    } else {
      var more := SplitWord(s[1..]);
      word := [s[0]] + more;
      assert s == [s[0]] + s[1..];
    }
  }

  lemma {:induction false} SplitKeyword(pattern: Pattern, u: string) returns (gap: string, word: string, rest: string)
    requires pattern != Prometheus && AfterKeyword(pattern, u).Some?
    ensures u == KEYWORD + (gap + (word + rest)) && gap != "" && Strip(gap) == ""
    ensures NoSpace(word) && (rest == "" || IsSpace(rest[0])) && (word == "" ==> rest == "")
  {
    var v := u[10..];
    var arg := Strip(v);
    gap := SplitBlank(v);
    word := SplitWord(arg);
    rest := DropWord(arg);
    assert KEYWORD <= u && |arg| < |v| && (arg != "" ==> !IsSpace(arg[0]));
    assert word == "" ==> arg == rest;
    hide Strip, DropWord, NoSpace;
    assert u == KEYWORD + v;
  }

  lemma {:induction false} SplitHash(pattern: Pattern, t: string) returns (hash: string)
    ensures t == hash + Uncomment(pattern, t)
    ensures hash == "" || (pattern == Existing && hash[0] == '#' && Strip(hash[1..]) == "")
  {
    if pattern == Existing && t != "" && t[0] == '#' {
      hide Strip;
      var space := SplitBlank(t[1..]);
      hash := "#" + space;
      assert hash[1..] == space && t == "#" + t[1..];
    } else {
      hash := "";
    }
  }

  lemma {:induction false} EntryFollows(pattern: Pattern, s: string)
    ensures Entry(pattern, s).Some? <==> AfterKeyword(pattern, Uncomment(pattern, Strip(s))).Some?
  {
    hide Strip, AfterKeyword, Uncomment;
  }

  /** And everything that is matched has that shape. */
  lemma {:induction false} MatchIsEntry(pattern: Pattern, s: string)
    returns (blank: string, hash: string, gap: string, word: string, rest: string)
    requires pattern != Prometheus && Entry(pattern, s).Some?
    ensures IsEntryOf(pattern, s, blank, hash, gap, word, rest)
  {
    hide Entry, AfterKeyword, NoSpace, Strip, Uncomment, IsSpace;
    EntryFollows(pattern, s);
    var t := Strip(s);
    var u := Uncomment(pattern, t);
    blank := SplitBlank(s);
    hash := SplitHash(pattern, t);
    gap, word, rest := SplitKeyword(pattern, u);
  }

  // Where they are looked for

  /** A match begins at `p`: at a newline, or at the start of the file. */
  ghost predicate MatchAt(pattern: Pattern, s: string, atStart: bool, p: nat) {
    p <= |s| && ((p == 0 && atStart) || (p < |s| && s[p] == '\n')) && Entry(pattern, s[p..]).Some?
  }

  lemma {:induction false} MatchAtNext(pattern: Pattern, s: string, atStart: bool, p: nat)
    requires s != "" && !MatchAt(pattern, s, atStart, 0)
    ensures MatchAt(pattern, s, atStart, p + 1) <==> MatchAt(pattern, s[1..], false, p)
  {
    hide Entry;
    if p + 1 <= |s| {
      assert s[1..][p..] == s[p + 1..];
    }
  }

  /** Nothing is found exactly when nothing matches anywhere. */
  lemma {:induction false} ScanFindsNothingIff(pattern: Pattern, s: string, atStart: bool, offset: nat)
    ensures Scan(pattern, s, atStart, offset) == [] <==> forall p :: !MatchAt(pattern, s, atStart, p)
    decreases |s|
  {
    hide Entry, Scan;
    assert s[0..] == s;
    if MatchAt(pattern, s, atStart, 0) {
      ScanHit(pattern, s, atStart, offset);
    } else {
      ScanMiss(pattern, s, atStart, offset);
      if s == "" {
        assert forall p: nat :: !MatchAt(pattern, s, atStart, p);
      } else {
        ScanFindsNothingIff(pattern, s[1..], false, offset + 1);
        if p: nat :| MatchAt(pattern, s, atStart, p) {
          MatchAtNext(pattern, s, atStart, p - 1);
        }
        if p: nat :| MatchAt(pattern, s[1..], false, p) {
          MatchAtNext(pattern, s, atStart, p);
        }
      }
    }
  }

  /** What is found first is the leftmost match, and the search goes on behind it. */
  lemma {:induction false} ScanFindsLeftmost(pattern: Pattern, s: string, atStart: bool, offset: nat, p: nat)
    requires MatchAt(pattern, s, atStart, p) && forall q: nat :: q < p ==> !MatchAt(pattern, s, atStart, q)
    ensures var hit := Entry(pattern, s[p..]).value;
            Scan(pattern, s, atStart, offset)
            == [Found(s[p + hit.start..p + hit.end], offset + p + hit.start)]
               + Scan(pattern, s[p + hit.end..], false, offset + p + hit.end)
    decreases |s|
  {
    hide Entry, Scan;
    if p == 0 {
      assert s[0..] == s;
      ScanHit(pattern, s, atStart, offset);
    } else {
      assert !MatchAt(pattern, s, atStart, 0) && s[0..] == s;
      ScanMiss(pattern, s, atStart, offset);
      MatchAtNext(pattern, s, atStart, p - 1);
      forall q: nat | q < p - 1 ensures !MatchAt(pattern, s[1..], false, q) {
        MatchAtNext(pattern, s, atStart, q);
      }
      ScanFindsLeftmost(pattern, s[1..], false, offset + 1, p - 1);
      var hit := Entry(pattern, s[p..]).value;
      assert s[1..][p - 1..] == s[p..];
      assert s[1..][p - 1 + hit.start..p - 1 + hit.end] == s[p + hit.start..p + hit.end];
      assert s[1..][p - 1 + hit.end..] == s[p + hit.end..];
    }
  }

  // Inspection

  /** An entry's argument up to a comment sign. */
  ghost predicate IsAddressOf(ip: string, text: string) {
    exists gap, word :: IsEntryText(text, gap, word) && IsBeforeHash(ip, word)
  }

  predicate IsBeforeHash(ip: string, word: string) {
    ip <= word && '#' !in ip && (|ip| == |word| || word[|ip|] == '#')
  }

  function Joined(ips: seq<string>): string {
    if ips == [] then "" else ips[0] + "\n" + Joined(ips[1..])
  }

  lemma {:induction false} UpToHash(word: string)
    requires NoSpace(word)
    ensures IsBeforeHash(UpToSpaceOrHash(word), word)
  {
    if word == "" || word[0] == '#' {
    } else {
      UpToHash(word[1..]);
      var ip := UpToSpaceOrHash(word[1..]);
      assert word == [word[0]] + word[1..] && UpToSpaceOrHash(word) == [word[0]] + ip;
    }
  }

  lemma {:induction false} IpOfEntry(text: string, gap: string, word: string)
    requires IsEntryText(text, gap, word)
    ensures NameserverLineToIp(text) == Some(UpToSpaceOrHash(word)) && IsBeforeHash(UpToSpaceOrHash(word), word)
  {
    EntryArgument(text, gap, word);
    UpToHash(word);
    assert text == KEYWORD + (gap + word);
    KeywordFront(gap + word);
    hide Strip, Argument, UpToSpaceOrHash, IsEntryText;
  }

  lemma {:induction false} IpsInOrder(s: string, atStart: bool, offset: nat) returns (ips: seq<string>)
    ensures var active := Scan(Active, s, atStart, offset);
            && |ips| == |active| && IpLines(active) == Some(Joined(ips))
            && forall i :: 0 <= i < |active| ==> IsAddressOf(ips[i], active[i].text)
    decreases |s|
  {
    hide Entry, Scan, IsAddressOf, NameserverLineToIp;
    var hit := if atStart || (s != "" && s[0] == '\n') then Entry(Active, s) else None;
    if hit.Some? {
      ScanHit(Active, s, atStart, offset);
      var more := IpsInOrder(s[hit.value.end..], false, offset + hit.value.end);
      var ip := IpOfHit(s);
      ips := [ip] + more;
      var active := Scan(Active, s, atStart, offset);
      assert active[1..] == Scan(Active, s[hit.value.end..], false, offset + hit.value.end) && ips[1..] == more;
    } else {
      ScanMiss(Active, s, atStart, offset);
      if s == "" {
        ips := [];
      } else {
        ips := IpsInOrder(s[1..], false, offset + 1);
      }
    }
  }

  lemma {:induction false} IpOfHit(s: string) returns (ip: string)
    requires Entry(Active, s).Some?
    ensures var hit := Entry(Active, s).value;
            NameserverLineToIp(s[hit.start..hit.end]) == Some(ip) && IsAddressOf(ip, s[hit.start..hit.end])
  {
    hide Entry, IsEntryText, IsBeforeHash, NameserverLineToIp;
    var hit := Entry(Active, s).value;
    var gap, word := ActiveTextShape(s);
    IpOfEntry(s[hit.start..hit.end], gap, word);
    ip := UpToSpaceOrHash(word);
  }

  /** Inspection of any text: refused without an active entry, otherwise their addresses in order, a line each. */
  lemma {:induction false} InspectMeans(contents: string) returns (ips: seq<string>)
    ensures var active := ActiveNameservers(contents);
            && (InspectContents(contents) == Err(Disconnected) <==> active == [])
            && (active != [] ==>
                  && InspectContents(contents) == Ok(Some(Joined(ips))) && |ips| == |active|
                  && forall i :: 0 <= i < |active| ==> IsAddressOf(ips[i], active[i].text))
  {
    hide Scan, IsAddressOf, IpLines;
    ips := IpsInOrder(contents, true, 0);
  }

  lemma {:induction false} AddressIsLocal(ip: string, text: string)
    requires IsAddressOf(ip, text)
    ensures '\n' !in ip && (ip == LOCALHOST <==> NamesLocalhost(text))
  {
    var gap, word :| IsEntryText(text, gap, word) && IsBeforeHash(ip, word);
    assert forall i :: 0 <= i < |ip| ==> ip[i] == word[i];
    assert IsSpace('\n') && '#' !in LOCALHOST;
    EntryArgument(text, gap, word);
    if NamesLocalhost(text) {
      var gap', word' :| IsEntryText(text, gap', word') && (word' == LOCALHOST || LOCALHOST + "#" <= word');
      EntryArgument(text, gap', word');
      LocalBeforeHash(ip, word);
    }
    assert ip == LOCALHOST && ip != word ==> LOCALHOST + "#" <= word;
    hide IsEntryText, NoSpace;
  }

  lemma {:induction false} LocalBeforeHash(ip: string, word: string)
    requires IsBeforeHash(ip, word) && (word == LOCALHOST || LOCALHOST + "#" <= word)
    ensures ip == LOCALHOST
  {
    assert forall i :: 0 <= i < 9 ==> word[i] == LOCALHOST[i] && LOCALHOST[i] != '#';
    assert forall i :: 0 <= i < |ip| ==> ip[i] == word[i] && ip[i] != '#';
    assert |word| > 9 ==> word[9] == '#';
    assert |ip| == 9;
  }

  lemma {:induction false} JoinedIsLocal(ips: seq<string>)
    requires forall i :: 0 <= i < |ips| ==> '\n' !in ips[i]
    ensures Joined(ips) == LOCALHOST + "\n" <==> ips == [LOCALHOST]
  {
    if ips == [] {
    } else {
      var rest := Joined(ips[1..]);
      assert ips == [LOCALHOST] ==> ips[1..] == [] && rest == "";
      if Joined(ips) == LOCALHOST + "\n" {
        FirstLineIs(ips[0], rest);
        assert ips[1..] == [] by {
          assert ips[1..] != [] ==> rest != "";
        }
        assert ips == [ips[0]] + ips[1..];
      }
    }
  }

  lemma {:induction false} FirstLineIs(ip: string, rest: string)
    requires '\n' !in ip && ip + "\n" + rest == LOCALHOST + "\n"
    ensures ip == LOCALHOST && rest == ""
  {
    var s := ip + "\n" + rest;
    assert s[|ip|] == '\n' && s[9] == '\n';
    assert forall i :: 0 <= i < 9 ==> s[i] == LOCALHOST[i] && LOCALHOST[i] != '\n';
    assert forall i :: 0 <= i < |ip| ==> s[i] == ip[i] && ip[i] != '\n';
    assert |ip| == 9;
    assert s[..9] == LOCALHOST && s[..|ip|] == ip;
  }

  /** The status of any connected file is "subverted" exactly when its one active nameserver is the local resolver. */
  lemma {:induction false} StatusIff(contents: string)
    requires ActiveNameservers(contents) != []
    ensures var active := ActiveNameservers(contents);
            && InspectContents(contents).Ok? && InspectContents(contents).value.Some?
            && (StatusFromInspect(InspectContents(contents).value.value) == Subverted
                <==> |active| == 1 && NamesLocalhost(active[0].text))
  {
    hide Scan, IsAddressOf, InspectContents, NamesLocalhost, Joined;
    var ips := InspectMeans(contents);
    var active := ActiveNameservers(contents);
    forall i | 0 <= i < |active| ensures '\n' !in ips[i] && (ips[i] == LOCALHOST <==> NamesLocalhost(active[i].text)) {
      AddressIsLocal(ips[i], active[i].text);
    }
    JoinedIsLocal(ips);
    assert ips == [LOCALHOST] <==> |ips| == 1 && ips[0] == LOCALHOST;
  }
}
