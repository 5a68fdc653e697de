/** Command lines and their layering in node/src/multi_config.rs. */
module LayeredConfig {
  import opened Basics

  datatype VclArg = NameValue(name: string, value: string) | NameOnly(name: string) {
    function ToArgs(): seq<string> {
      match this
      case NameValue(name, value) => [name, value]
      case NameOnly(name) => [name]
    }
  }

  type Vcl = seq<VclArg>

  // Merging

  /** The arguments whose names are not in `seen`, each name only once. */
  function Keep(args: Vcl, seen: set<string>): Vcl {
    if args == [] then []
    else if args[0].name in seen then Keep(args[1..], seen)
    else [args[0]] + Keep(args[1..], seen + {args[0].name})
  }

  function Merge(lower: Vcl, higher: Vcl): Vcl {
    Keep(higher + lower, {})
  }

  /** Filters with a set of the names still to come, as the source does. */
  method MergeVcls(lower: Vcl, higher: Vcl) returns (prioritized: Vcl)
    ensures prioritized == Merge(lower, higher)
  {
    hide Lookup;
    var combined := higher + lower;
    var names := set i | 0 <= i < |combined| :: combined[i].name;
    ghost var seen: set<string> := {};
    prioritized := [];
    for i := 0 to |combined|
      invariant forall j :: i <= j < |combined| ==> (combined[j].name in names <==> combined[j].name !in seen)
      invariant prioritized + Keep(combined[i..], seen) == Merge(lower, higher)
    {
      var arg := combined[i];
      assert combined[i..][1..] == combined[i + 1..];
      if arg.name in names {
        names := names - {arg.name};
        prioritized := prioritized + [arg];
        seen := seen + {arg.name};
      }
    }
    assert combined[|combined|..] == [];
  }

  /** The fold of `MultiConfig::new`: sources in increasing priority over an empty command line. */
  function MergeAll(vcls: seq<Vcl>): Vcl {
    if vcls == [] then [] else Merge(MergeAll(vcls[..|vcls| - 1]), vcls[|vcls| - 1])
  }

  // What a merged command line means

  /** The first argument of that name. */
  function Lookup(args: Vcl, name: string): Option<VclArg> {
    if args == [] then None else if args[0].name == name then Some(args[0]) else Lookup(args[1..], name)
  }

  /** The setting of the last source that mentions the name. */
  function LastSourceWins(vcls: seq<Vcl>, name: string): Option<VclArg> {
    if vcls == [] then None
    else
      var last := Lookup(vcls[|vcls| - 1], name);
      if last.Some? then last else LastSourceWins(vcls[..|vcls| - 1], name)
  }

  ghost predicate NamesDistinct(args: Vcl) {
    forall i, j :: 0 <= i < j < |args| ==> args[i].name != args[j].name
  }

  lemma {:induction false} KeepLooksUp(args: Vcl, seen: set<string>, name: string)
    ensures Lookup(Keep(args, seen), name) == if name in seen then None else Lookup(args, name)
    decreases |args|
  {
    if args == [] {
    } else {
      KeepLooksUp(args[1..], if args[0].name in seen then seen else seen + {args[0].name}, name);
    }
  }

  lemma {:induction false} KeepIsDistinct(args: Vcl, seen: set<string>)
    ensures NamesDistinct(Keep(args, seen))
    ensures forall i :: 0 <= i < |Keep(args, seen)| ==> Keep(args, seen)[i].name !in seen
    decreases |args|
  {
    if args == [] {
    } else {
      KeepIsDistinct(args[1..], if args[0].name in seen then seen else seen + {args[0].name});
    }
  }

  lemma {:induction false} LookupConcat(a: Vcl, b: Vcl, name: string)
    ensures Lookup(a + b, name) == if Lookup(a, name).Some? then Lookup(a, name) else Lookup(b, name)
    decreases |a|
  {
    if a == [] {
      assert a + b == b;
    } else {
      assert (a + b)[1..] == a[1..] + b;
      LookupConcat(a[1..], b, name);
    }
  }

  /**
   * Folding `merge` over any command lines gives each name exactly once, with the setting of the
   * last source that mentions it, taken from its first occurrence there.
   */
  lemma {:induction false} MergeAllIsLastSourceWins(vcls: seq<Vcl>, name: string)
    ensures NamesDistinct(MergeAll(vcls))
    ensures Lookup(MergeAll(vcls), name) == LastSourceWins(vcls, name)
  {
    if vcls == [] {
    } else {
      var init, last := vcls[..|vcls| - 1], vcls[|vcls| - 1];
      MergeAllIsLastSourceWins(init, name);
      KeepIsDistinct(last + MergeAll(init), {});
      KeepLooksUp(last + MergeAll(init), {}, name);
      LookupConcat(last, MergeAll(init), name);
    }
  }

  function Names(args: Vcl): set<string> {
    if args == [] then {} else {args[0].name} + Names(args[1..])
  }

  lemma {:induction false} KeepConcat(a: Vcl, b: Vcl, seen: set<string>)
    ensures Keep(a + b, seen) == Keep(a, seen) + Keep(b, seen + Names(a))
    decreases |a|
  {
    if a == [] {
      assert a + b == b && seen + {} == seen;
    } else {
      var seen' := if a[0].name in seen then seen else seen + {a[0].name};
      assert (a + b)[1..] == a[1..] + b;
      KeepConcat(a[1..], b, seen');
      assert seen' + Names(a[1..]) == seen + Names(a);
    }
  }

  lemma {:induction false} KeepTwice(args: Vcl, inner: set<string>, outer: set<string>)
    ensures Keep(Keep(args, inner), outer) == Keep(args, inner + outer)
    decreases |args|
  {
    if args == [] {
    } else {
      var n := args[0].name;
      if n in inner {
        KeepTwice(args[1..], inner, outer);
      } else {
        assert Keep(args, inner)[1..] == Keep(args[1..], inner + {n});
        var outer' := if n in outer then outer else outer + {n};
        KeepTwice(args[1..], inner + {n}, outer');
        assert inner + {n} + outer' == if n in outer then inner + outer else inner + outer + {n};
      }
    }
  }

  lemma {:induction false} NamesOfKept(args: Vcl, seen: set<string>)
    ensures Names(Keep(args, seen)) + seen == Names(args) + seen
    decreases |args|
  {
    if args == [] {
    } else {
      NamesOfKept(args[1..], if args[0].name in seen then seen else seen + {args[0].name});
    }
  }

  lemma {:induction false} NamesConcat(a: Vcl, b: Vcl)
    ensures Names(a + b) == Names(a) + Names(b)
  {
    if a == [] {
      assert a + b == b;
    } else {
      assert (a + b)[1..] == a[1..] + b;
      NamesConcat(a[1..], b);
    }
  }

  /** It does not matter in which order neighbouring layers are merged. */
  lemma {:induction false} MergeIsAssociative(a: Vcl, b: Vcl, c: Vcl)
    ensures Merge(Merge(a, b), c) == Merge(a, Merge(b, c))
  {
    var none: set<string> := {};
    calc {
      Merge(Merge(a, b), c);
      { KeepConcat(c, Keep(b + a, {}), {}); assert none + Names(c) == Names(c); }
      Keep(c, {}) + Keep(Keep(b + a, {}), Names(c));
      { KeepTwice(b + a, {}, Names(c)); assert none + Names(c) == Names(c); }
      Keep(c, {}) + Keep(b + a, Names(c));
      { KeepConcat(b, a, Names(c)); }
      Keep(c, {}) + Keep(b, Names(c)) + Keep(a, Names(c) + Names(b));
      { KeepConcat(c, b, {}); assert none + Names(c) == Names(c); NamesConcat(c, b); }
      Keep(c + b, {}) + Keep(a, Names(c + b));
      { KeepTwice(c + b, {}, {}); assert none + none == none; }
      Keep(Keep(c + b, {}), {}) + Keep(a, Names(c + b));
      { NamesOfKept(c + b, {}); assert none + Names(Keep(c + b, {})) == Names(c + b); }
      Keep(Keep(c + b, {}), {}) + Keep(a, none + Names(Keep(c + b, {})));
      { KeepConcat(Keep(c + b, {}), a, {}); }
      Merge(a, Merge(b, c));
    }
  }

  /** The arguments that are the first of their name, in their order. */
  function Firsts(args: Vcl): Vcl {
    if args == [] then []
    else
      var n := |args| - 1;
      Firsts(args[..n])
      + (if exists i :: 0 <= i < n && args[i].name == args[n].name then [] else [args[n]])
  }

  lemma {:induction false} NamesMean(args: Vcl, name: string)
    ensures name in Names(args) <==> exists i :: 0 <= i < |args| && args[i].name == name
  {
    if args == [] {
    } else {
      NamesMean(args[1..], name);
      if i :| 0 <= i < |args[1..]| && args[1..][i].name == name {
        assert args[i + 1].name == name;
      }
      if i :| 0 < i < |args| && args[i].name == name {
        assert args[1..][i - 1].name == name;
      }
    }
  }

  /** A merged list keeps the order of the arguments, those of higher priority in front. */
  lemma {:induction false} MergeKeepsOrder(lower: Vcl, higher: Vcl)
    ensures Merge(lower, higher) == Firsts(higher + lower)
  {
    KeepIsFirsts(higher + lower);
  }

  lemma {:induction false} KeepIsFirsts(args: Vcl)
    ensures Keep(args, {}) == Firsts(args)
  {
    if args == [] {
    } else {
      var n := |args| - 1;
      var init, last := args[..n], args[n];
      var none: set<string> := {};
      KeepIsFirsts(init);
      assert args == init + [last] && none + Names(init) == Names(init);
      KeepConcat(init, [last], {});
      NamesMean(init, last.name);
      assert [last][1..] == [];
      assert Keep([last], Names(init)) == if last.name in Names(init) then [] else [last];
      assert forall i :: 0 <= i < n ==> init[i] == args[i];
    }
  }

  // Parsing and printing

  predicate IsOption(s: string) {
    "--" <= s
  }

  /** The source panics on an empty vector and on a name without its dashes. */
  datatype ParseError = NoCommand | NotAnOption

  function ParseOptions(args: seq<string>): Result<Vcl, ParseError> {
    if args == [] then Ok([])
    else if !IsOption(args[0]) then Err(NotAnOption)
    else
      var valued := |args| > 1 && !IsOption(args[1]);
      var first := if valued then NameValue(args[0], args[1]) else NameOnly(args[0]);
      match ParseOptions(if valued then args[2..] else args[1..])
      case Ok(rest) => Ok([first] + rest)
      case Err(e) => Err(e)
  }

  function Parse(args: seq<string>): Result<Vcl, ParseError> {
    if args == [] then Err(NoCommand) else ParseOptions(args[1..])
  }

  function PrintOptions(args: Vcl): seq<string> {
    if args == [] then [] else args[0].ToArgs() + PrintOptions(args[1..])
  }

  function Print(args: Vcl): seq<string> {
    [""] + PrintOptions(args)
  }

  /** `CommandLineVcl::new`, which consumes its vector from the front. */
  method NewCommandLine(vector: seq<string>) returns (result: Result<Vcl, ParseError>)
    ensures result == Parse(vector)
  {
    if vector == [] {
      return Err(NoCommand);
    }
    var args := vector[1..];
    var vclArgs: Vcl := [];
    assert ParseOptions(args).Ok? ==> [] + ParseOptions(args).value == ParseOptions(args).value;
    while args != []
      invariant Parse(vector) == After(vclArgs, ParseOptions(args))
      decreases |args|
    {
      var name := args[0];
      if !IsOption(name) {
        return Err(NotAnOption);
      }
      AfterOne(vclArgs, args);
      if |args| == 1 || IsOption(args[1]) {
        vclArgs, args := vclArgs + [NameOnly(name)], args[1..];
      } else {
        vclArgs, args := vclArgs + [NameValue(name, args[1])], args[2..];
      }
    }
    assert vclArgs + [] == vclArgs;
    result := Ok(vclArgs);
  }

  function After(done: Vcl, rest: Result<Vcl, ParseError>): Result<Vcl, ParseError> {
    match rest
    case Ok(more) => Ok(done + more)
    case Err(e) => Err(e)
  }

  lemma {:induction false} AfterOne(done: Vcl, args: seq<string>)
    requires args != [] && IsOption(args[0])
    ensures var valued := |args| > 1 && !IsOption(args[1]);
            var first := if valued then NameValue(args[0], args[1]) else NameOnly(args[0]);
            After(done, ParseOptions(args))
            == After(done + [first], ParseOptions(if valued then args[2..] else args[1..]))
  {
    var valued := |args| > 1 && !IsOption(args[1]);
    var first := if valued then NameValue(args[0], args[1]) else NameOnly(args[0]);
    var rest := ParseOptions(if valued then args[2..] else args[1..]);
    assert rest.Ok? ==> done + [first] + rest.value == done + ([first] + rest.value);
  }

  lemma {:induction false} PrintParsedOptions(args: seq<string>)
    requires ParseOptions(args).Ok?
    ensures PrintOptions(ParseOptions(args).value) == args
    decreases |args|
  {
    if args == [] {
    } else {
      var valued := |args| > 1 && !IsOption(args[1]);
      var rest := if valued then args[2..] else args[1..];
      PrintParsedOptions(rest);
      assert ParseOptions(args).value[1..] == ParseOptions(rest).value;
      assert args == (if valued then [args[0], args[1]] else [args[0]]) + rest;
    }
  }

  /** Printing what was parsed gives the vector back, its command replaced by the empty string. */
  lemma {:induction false} PrintParse(args: seq<string>)
    requires Parse(args).Ok?
    ensures Print(Parse(args).value) == [""] + args[1..]
  {
    PrintParsedOptions(args[1..]);
  }

  predicate Dashed(s: string) {
    |s| >= 2 && s[0] == '-' && s[1] == '-'
  }

  lemma OptionsAreDashed()
    ensures forall s: string :: IsOption(s) <==> Dashed(s)
  {
  }

  ghost predicate Printable(arg: VclArg) {
    Dashed(arg.name) && (arg.NameValue? ==> !Dashed(arg.value))
  }

  lemma {:induction false} ParsePrintedOptions(args: Vcl)
    ensures ParseOptions(PrintOptions(args)) == Ok(args)
            <==> forall i :: 0 <= i < |args| ==> Printable(args[i])
  {
    OptionsAreDashed();
    if args == [] {
    } else {
      var rest := args[1..];
      var text := PrintOptions(args);
      var more := PrintOptions(rest);
      ParsePrintedOptions(rest);
      NextIsOption(rest);
      assert text == args[0].ToArgs() + more;
      assert args[0].NameOnly? ==> text[1..] == more;
      assert args[0].NameValue? ==> text[2..] == more && text[1] == args[0].value;
      assert args == [args[0]] + rest;
      if ParseOptions(text) == Ok(args) {
        assert ParseOptions(text).value[0] == args[0] && ParseOptions(text).value[1..] == rest;
      }
    }
  }

  lemma {:induction false} NextIsOption(args: Vcl)
    ensures ParseOptions(PrintOptions(args)).Ok? && args != [] ==> IsOption(PrintOptions(args)[0])
  {
  }

  /** Parsing what was printed gives the arguments back exactly when every name is an option and no value is. */
  lemma {:induction false} ParsePrint(args: Vcl)
    ensures Parse(Print(args)) == Ok(args) <==> forall i :: 0 <= i < |args| ==> Printable(args[i])
  {
    ParsePrintedOptions(args);
    assert Print(args)[1..] == PrintOptions(args);
  }

  /** Options, each with at most one value behind it. */
  ghost predicate IsOptionList(args: seq<string>) {
    && (args != [] ==> Dashed(args[0]))
    && forall i :: 0 < i < |args| ==> Dashed(args[i]) || Dashed(args[i - 1])
  }

  lemma {:induction false} OptionsAcceptedIff(args: seq<string>)
    ensures ParseOptions(args).Ok? <==> IsOptionList(args)
    ensures ParseOptions(args).Err? ==> ParseOptions(args).error == NotAnOption
    decreases |args|
  {
    OptionsAreDashed();
    if args == [] || !IsOption(args[0]) {
    } else {
      hide IsOption, Dashed;
      var valued := |args| > 1 && !IsOption(args[1]);
      var n := if valued then 2 else 1;
      var rest := args[n..];
      OptionsAcceptedIff(rest);
      assert forall i :: 0 <= i < |rest| ==> rest[i] == args[i + n];
      assert forall i :: n <= i < |args| ==> args[i] == rest[i - n];
    }
  }

  /** Which argument vectors are accepted, and which error the others meet. */
  lemma {:induction false} ParseAcceptsIff(args: seq<string>)
    ensures Parse(args) == Err(NoCommand) <==> args == []
    ensures Parse(args) == Err(NotAnOption) <==> args != [] && !IsOptionList(args[1..])
  {
    if args == [] {
    } else {
      OptionsAcceptedIff(args[1..]);
    }
  }
}
