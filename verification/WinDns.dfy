/**
 * The Windows DNS modifier of dns_utility/src/win_dns_modifier.rs: a transaction over several
 * network interfaces, with rollback, on a registry whose writes may fail.
 */
module WinDns {
  import opened Basics

  /** The values of one interface key that subversion touches. */
  datatype Entry = Entry(nameServer: Option<string>, backup: Option<string>)

  type Registry = map<string, Entry>

  const LOCALHOST := "127.0.0.1"

  predicate IsSubverted(nameServers: string) {
    nameServers == LOCALHOST || LOCALHOST + "," <= nameServers
  }

  predicate MakesNoSense(nameServers: string) {
    LOCALHOST in Split(nameServers, ',')
  }

  // The two directions share one shape: a forward step that may fail, and its rollback

  datatype Direction = Subverting | Reverting

  /** A write to the registry or through netsh; one that fails has no effect. */
  datatype Primitive = SetBackup(key: string) | SetNameServers(key: string) | DeleteBackup(key: string)

  datatype Step = Step(entry: Entry, ok: bool)

  // The source panics on an interface without the value it selected it for, so `e` always has one in a
  // call; the arms for a missing value only keep the steps total.

  function SubvertInterface(e: Entry, key: string, faults: set<Primitive>): Step {
    if e.nameServer.None? then Step(e, false)
    else if IsSubverted(e.nameServer.value) then Step(e, true)
    else if MakesNoSense(e.nameServer.value) || SetBackup(key) in faults then Step(e, false)
    else if SetNameServers(key) in faults then Step(e.(backup := e.nameServer), false)
    else Step(Entry(Some(LOCALHOST), e.nameServer), true)
  }

  /** Not ok means that the source panics and asks for the settings to be checked by hand. */
  function RollBackSubvert(e: Entry, key: string, faults: set<Primitive>): Step {
    if e.backup.None? then Step(e, true)
    else if DeleteBackup(key) in faults then Step(e, false)
    else if e.nameServer.None? then Step(e.(backup := None), false)
    else if !IsSubverted(e.nameServer.value) then Step(e.(backup := None), true)
    else if SetNameServers(key) in faults then Step(e.(backup := None), false)
    else Step(Entry(e.backup, None), true)
  }

  function RevertInterface(e: Entry, key: string, faults: set<Primitive>): Step {
    if e.backup.None? || (e.nameServer.Some? && SetNameServers(key) in faults) then Step(e, false)
    else
      var e' := if e.nameServer.None? then e else e.(nameServer := e.backup);
      if DeleteBackup(key) in faults then Step(e', false) else Step(e'.(backup := None), true)
  }

  function RollBackRevert(e: Entry, key: string, faults: set<Primitive>): Step {
    if e.nameServer.None? || IsSubverted(e.nameServer.value) then Step(e, true)
    else if SetBackup(key) in faults then Step(e, false)
    else if SetNameServers(key) in faults then Step(e.(backup := e.nameServer), false)
    else Step(Entry(Some(LOCALHOST), e.nameServer), true)
  }

  function StepOf(dir: Direction, rollback: bool, e: Entry, key: string, faults: set<Primitive>): Step {
    match (dir, rollback)
    case (Subverting, false) => SubvertInterface(e, key, faults)
    case (Subverting, true) => RollBackSubvert(e, key, faults)
    case (Reverting, false) => RevertInterface(e, key, faults)
    case (Reverting, true) => RollBackRevert(e, key, faults)
  }

  // Whole calls

  ghost predicate AllDistinct(keys: seq<string>) {
    forall i, j :: 0 <= i < j < |keys| ==> keys[i] != keys[j]
  }

  /**
   * What one call meets: whether the parent key opens, the interface keys below it that can be
   * enumerated and opened, their gateways, and which writes fail going forward and rolling back.
   */
  datatype Env = Env(opens: bool, keys: seq<string>, defaultGateway: map<string, string>, dhcpDefaultGateway: map<string, string>,
                     faults: set<Primitive>, rollbackFaults: set<Primitive>)
  {
    ghost predicate Fits(registry: Registry) {
      && (forall i :: 0 <= i < |keys| ==> keys[i] in registry)
      && AllDistinct(keys)
    }

    function Gateway(key: string): Option<string> {
      var gateway := if key in dhcpDefaultGateway then Some(dhcpDefaultGateway[key])
                     else if key in defaultGateway then Some(defaultGateway[key]) else None;
      if gateway == Some("") then None else gateway
    }
  }

  function Select(dir: Direction, registry: Registry, env: Env, keys: seq<string>): (selected: seq<string>)
    requires forall i :: 0 <= i < |keys| ==> keys[i] in registry
    ensures forall k :: k in selected <==> k in keys && Eligible(dir, registry, env, k)
  {
    if keys == [] then []
    else (if Eligible(dir, registry, env, keys[0]) then [keys[0]] else []) + Select(dir, registry, env, keys[1..])
  }

  predicate Eligible(dir: Direction, registry: Registry, env: Env, key: string) {
    && key in registry
    && match dir
       case Subverting => env.Gateway(key).Some? && registry[key].nameServer.Some?
       case Reverting => registry[key].backup.Some?
  }

  /** The interfaces to work on; subversion gives up when there are none or their gateways differ. */
  function FindInterfaces(dir: Direction, registry: Registry, env: Env): Option<seq<string>>
    requires forall i :: 0 <= i < |env.keys| ==> env.keys[i] in registry
  {
    var selected := Select(dir, registry, env, env.keys);
    if dir == Subverting
       && (selected == [] || exists i :: 0 <= i < |selected| && env.Gateway(selected[i]) != env.Gateway(selected[0]))
    then None else Some(selected)
  }

  datatype Swept = Swept(registry: Registry, attempted: nat, ok: bool)

  /** Steps each interface in turn until one is not ok; `attempted` counts those stepped, that one included. */
  function Sweep(dir: Direction, rollback: bool, registry: Registry, keys: seq<string>, faults: set<Primitive>): Swept
    requires forall k :: k in keys ==> k in registry
    decreases |keys|
  {
    if keys == [] then Swept(registry, 0, true)
    else
      var step := StepOf(dir, rollback, registry[keys[0]], keys[0], faults);
      var registry' := registry[keys[0] := step.entry];
      if !step.ok then Swept(registry', 1, false)
      else
        var rest := Sweep(dir, rollback, registry', keys[1..], faults);
        rest.(attempted := rest.attempted + 1)
  }

  datatype CallResult = Done | Failed | Panicked

  datatype Outcome = Outcome(registry: Registry, result: CallResult)

  /** `subvert` or `revert`: sweep forward, and on a failure roll back every interface touched. */
  function Call(dir: Direction, registry: Registry, env: Env): (outcome: Outcome)
    requires env.Fits(registry)
    ensures outcome.registry.Keys == registry.Keys
  {
    var found := if env.opens then FindInterfaces(dir, registry, env) else None;
    if found.None? then Outcome(registry, Failed)
    else
      var forth := Sweep(dir, false, registry, found.value, env.faults);
      SweepIsPointwise(dir, false, registry, found.value, env.faults);
      if forth.ok then Outcome(forth.registry, Done)
      else
        var back := Sweep(dir, true, forth.registry, found.value[..forth.attempted], env.rollbackFaults);
        SweepIsPointwise(dir, true, forth.registry, found.value[..forth.attempted], env.rollbackFaults);
        Outcome(back.registry, if back.ok then Failed else Panicked)
  }

  /** A sweep touches a leading part of its interfaces, each once and independently of the others. */
  lemma {:induction false} SweepIsPointwise(dir: Direction, rollback: bool, registry: Registry, keys: seq<string>,
                                            faults: set<Primitive>)
    requires forall k :: k in keys ==> k in registry
    ensures var swept := Sweep(dir, rollback, registry, keys, faults);
            && swept.attempted <= |keys|
            && swept.registry.Keys == registry.Keys
            && (swept.ok ==> swept.attempted == |keys|)
            && (AllDistinct(keys) ==>
                  forall k :: k in registry ==>
                    swept.registry[k] == if k in keys[..swept.attempted]
                                         then StepOf(dir, rollback, registry[k], k, faults).entry else registry[k])
            && (AllDistinct(keys) && swept.ok ==>
                  forall k :: k in keys ==> StepOf(dir, rollback, registry[k], k, faults).ok)
    decreases |keys|
  {
    if keys == [] {
    } else {
      var key, tail := keys[0], keys[1..];
      var step := StepOf(dir, rollback, registry[key], key, faults);
      var registry' := registry[key := step.entry];
      hide StepOf;
      if !step.ok {
        assert keys[..1] == [key];
      } else {
        SweepIsPointwise(dir, rollback, registry', tail, faults);
        var n := Sweep(dir, rollback, registry', tail, faults).attempted;
        assert keys[..n + 1] == [key] + tail[..n];
        assert AllDistinct(keys) ==> AllDistinct(tail) && key !in tail[..n];
      }
    }
  }

  /** Finds the interfaces that qualify, in order and without repeats. */
  lemma {:induction false} SelectIsDistinct(dir: Direction, registry: Registry, env: Env, keys: seq<string>)
    requires AllDistinct(keys) && forall i :: 0 <= i < |keys| ==> keys[i] in registry
    ensures AllDistinct(Select(dir, registry, env, keys))
  {
    if keys == [] {
    } else {
      hide Eligible;
      SelectIsDistinct(dir, registry, env, keys[1..]);
      assert keys[0] !in keys[1..];
    }
  }

  class WinDnsModifier {
    var registry: Registry

    constructor (registry: Registry)
      ensures this.registry == registry
    {
      this.registry := registry;
    }

    // The primitives: each fails without effect when the environment says so

    method SetBackupValue(key: string, value: string, faults: set<Primitive>) returns (ok: bool)
      requires key in registry
      modifies this
      ensures ok == (SetBackup(key) !in faults)
      ensures registry == if ok then old(registry)[key := old(registry)[key].(backup := Some(value))] else old(registry)
    {
      ok := SetBackup(key) !in faults;
      if ok {
        registry := registry[key := registry[key].(backup := Some(value))];
      }
    }

    method SetNameServerValue(key: string, value: string, faults: set<Primitive>) returns (ok: bool)
      requires key in registry
      modifies this
      ensures ok == (SetNameServers(key) !in faults)
      ensures registry == if ok then old(registry)[key := old(registry)[key].(nameServer := Some(value))] else old(registry)
    {
      ok := SetNameServers(key) !in faults;
      if ok {
        registry := registry[key := registry[key].(nameServer := Some(value))];
      }
    }

    method DeleteBackupValue(key: string, faults: set<Primitive>) returns (ok: bool)
      requires key in registry
      modifies this
      ensures ok == (DeleteBackup(key) !in faults)
      ensures registry == if ok then old(registry)[key := old(registry)[key].(backup := None)] else old(registry)
    {
      ok := DeleteBackup(key) !in faults;
      if ok {
        registry := registry[key := registry[key].(backup := None)];
      }
    }

    method StepInterface(dir: Direction, rollback: bool, key: string, faults: set<Primitive>) returns (ok: bool)
      requires key in registry
      modifies this
      ensures var step := StepOf(dir, rollback, old(registry)[key], key, faults);
              registry == old(registry)[key := step.entry] && ok == step.ok
    {
      match (dir, rollback)
      case (Subverting, false) => ok := SubvertOne(key, faults);
      case (Subverting, true) => ok := RollBackSubvertOne(key, faults);
      case (Reverting, false) => ok := RevertOne(key, faults);
      case (Reverting, true) => ok := RollBackRevertOne(key, faults);
    }

    method SubvertOne(key: string, faults: set<Primitive>) returns (ok: bool)
      requires key in registry
      modifies this
      ensures var step := SubvertInterface(old(registry)[key], key, faults);
              registry == old(registry)[key := step.entry] && ok == step.ok
    {
      if registry[key].nameServer == None {
        return false;
      }
      var nameServers := registry[key].nameServer.value;
      if IsSubverted(nameServers) {
        return true;
      }
      if MakesNoSense(nameServers) {
        return false;
      }
      ok := SetBackupValue(key, nameServers, faults);
      if ok {
        ok := SetNameServerValue(key, LOCALHOST, faults);
      }
    }

    method RollBackSubvertOne(key: string, faults: set<Primitive>) returns (ok: bool)
      requires key in registry
      modifies this
      ensures var step := RollBackSubvert(old(registry)[key], key, faults);
              registry == old(registry)[key := step.entry] && ok == step.ok
    {
      if registry[key].backup == None {
        return true;
      }
      var nameServers := registry[key].backup.value;
      ok := DeleteBackupValue(key, faults);
      if ok {
        if registry[key].nameServer == None {
          ok := false;
        } else if IsSubverted(registry[key].nameServer.value) {
          ok := SetNameServerValue(key, nameServers, faults);
        }
      }
    }

    method RevertOne(key: string, faults: set<Primitive>) returns (ok: bool)
      requires key in registry
      modifies this
      ensures var step := RevertInterface(old(registry)[key], key, faults);
              registry == old(registry)[key := step.entry] && ok == step.ok
    {
      if registry[key].backup == None {
        return false;
      }
      ok := true;
      if registry[key].nameServer.Some? {
        ok := SetNameServerValue(key, registry[key].backup.value, faults);
      }
      if ok {
        ok := DeleteBackupValue(key, faults);
      }
    }

    method RollBackRevertOne(key: string, faults: set<Primitive>) returns (ok: bool)
      requires key in registry
      modifies this
      ensures var step := RollBackRevert(old(registry)[key], key, faults);
              registry == old(registry)[key := step.entry] && ok == step.ok
    {
      if registry[key].nameServer == None || IsSubverted(registry[key].nameServer.value) {
        return true;
      }
      ok := SetBackupValue(key, registry[key].nameServer.value, faults);
      if ok {
        ok := SetNameServerValue(key, LOCALHOST, faults);
      }
    }

    method SweepInterfaces(dir: Direction, rollback: bool, keys: seq<string>, faults: set<Primitive>)
      returns (attempted: nat, ok: bool)
      requires forall k :: k in keys ==> k in registry
      modifies this
      ensures Swept(registry, attempted, ok) == Sweep(dir, rollback, old(registry), keys, faults)
    {
      attempted := 0;
      while attempted < |keys|
        invariant attempted <= |keys| && registry.Keys == old(registry).Keys
        invariant forall k :: k in keys[attempted..] ==> k in registry
        invariant var rest := Sweep(dir, rollback, registry, keys[attempted..], faults);
                  Sweep(dir, rollback, old(registry), keys, faults) == rest.(attempted := rest.attempted + attempted)
      {
        assert keys[attempted..][1..] == keys[attempted + 1..] && keys[attempted] in keys[attempted..];
        ok := StepInterface(dir, rollback, keys[attempted], faults);
        attempted := attempted + 1;
        if !ok {
          return;
        }
      }
      ok := true;
    }

    method Subvert(env: Env) returns (result: CallResult)
      requires env.Fits(registry)
      modifies this
      ensures Outcome(registry, result) == Call(Subverting, old(registry), env)
    {
      result := Transact(Subverting, env);
    }

    method Revert(env: Env) returns (result: CallResult)
      requires env.Fits(registry)
      modifies this
      ensures Outcome(registry, result) == Call(Reverting, old(registry), env)
    {
      result := Transact(Reverting, env);
    }

    method Transact(dir: Direction, env: Env) returns (result: CallResult)
      requires env.Fits(registry)
      modifies this
      ensures Outcome(registry, result) == Call(dir, old(registry), env)
    {
      var found := if env.opens then FindInterfaces(dir, registry, env) else None;
      if found == None {
        return Failed;
      }
      SweepIsPointwise(dir, false, registry, found.value, env.faults);
      var attempted, ok := SweepInterfaces(dir, false, found.value, env.faults);
      if ok {
        return Done;
      }
      var _, rolledBack := SweepInterfaces(dir, true, found.value[..attempted], env.rollbackFaults);
      result := if rolledBack then Failed else Panicked;
    }
  }

  // What never gets lost

  /** A list that counts as subverted makes no sense as an original, so it is never saved as a backup. */
  lemma {:induction false} SubvertedMakesNoSense(s: string)
    requires IsSubverted(s)
    ensures MakesNoSense(s)
  {
    SplitFront(LOCALHOST, s[|LOCALHOST|..]);
    assert s == LOCALHOST + s[|LOCALHOST|..];
  }

  /** A list is subverted exactly when its first address is the local one. */
  lemma {:induction false} SubvertedMeansFirst(s: string)
    ensures IsSubverted(s) <==> Split(s, ',')[0] == LOCALHOST
  {
    SplitParts(s);
    if IsSubverted(s) {
      SplitFront(LOCALHOST, s[|LOCALHOST|..]);
      assert s == LOCALHOST + s[|LOCALHOST|..];
    }
    hide Split;
  }

  /** A list makes no sense exactly when the local address stands in it somewhere between commas. */
  lemma {:induction false} NoSenseMeans(s: string)
    ensures MakesNoSense(s) <==> exists i :: PieceAt(s, LOCALHOST, i)
  {
    assert ',' !in LOCALHOST;
    InSplitIff(s, LOCALHOST);
  }

  /** Either the original with no backup, or localhost with the original, a sensible one, backed up. */
  ghost predicate Recoverable(original: Entry, e: Entry) {
    && original.backup == None
    && (e == original
        || (&& original.nameServer.Some? && !MakesNoSense(original.nameServer.value)
            && e == Entry(Some(LOCALHOST), original.nameServer)))
  }

  lemma {:induction false} StepForward(dir: Direction, original: Entry, e: Entry, key: string, faults: set<Primitive>)
    requires Recoverable(original, e)
    requires if dir == Subverting then e.nameServer.Some? else e.backup.Some?
    ensures var step := StepOf(dir, false, e, key, faults);
            && (step.ok ==> Recoverable(original, step.entry))
            && (step.ok && dir == Subverting && e == original ==>
                  step.entry == original || step.entry.backup == original.nameServer)
            && (step.ok && dir == Reverting ==> step.entry == original)
            && (Recoverable(original, step.entry)
                || (!MakesNoSense(original.nameServer.value)
                    && step.entry == Entry(original.nameServer, original.nameServer)))
  {
    assert IsSubverted(LOCALHOST);
  }

  /** Rolling an interface back: a subversion ends in the original, a reversion where it started. */
  lemma {:induction false} StepBack(dir: Direction, original: Entry, e: Entry, key: string,
                                    faults: set<Primitive>, rollbackFaults: set<Primitive>)
    requires Recoverable(original, e)
    requires if dir == Subverting then e.nameServer.Some? else e.backup.Some?
    requires StepOf(dir, true, StepOf(dir, false, e, key, faults).entry, key, rollbackFaults).ok
    ensures StepOf(dir, true, StepOf(dir, false, e, key, faults).entry, key, rollbackFaults).entry
            == if dir == Subverting then original else e
  {
    assert IsSubverted(LOCALHOST);
    if original.nameServer.Some? && IsSubverted(original.nameServer.value) {
      SubvertedMakesNoSense(original.nameServer.value);
    }
  }

  ghost predicate AllRecoverable(original: Registry, registry: Registry) {
    && original.Keys == registry.Keys
    && forall k :: k in original ==> Recoverable(original[k], registry[k])
  }

  /** The interfaces that a failed call touched. */
  ghost function Attempted(dir: Direction, registry: Registry, env: Env): (keys: set<string>)
    requires env.Fits(registry)
    ensures keys <= registry.Keys
  {
    var found := if env.opens then FindInterfaces(dir, registry, env) else None;
    if found.None? then {}
    else
      SweepIsPointwise(dir, false, registry, found.value, env.faults);
      set k | k in found.value[..Sweep(dir, false, registry, found.value, env.faults).attempted]
  }

  lemma {:induction false} FoundAre(dir: Direction, registry: Registry, env: Env)
    requires env.Fits(registry) && FindInterfaces(dir, registry, env).Some?
    ensures var keys := FindInterfaces(dir, registry, env).value;
            AllDistinct(keys) && forall k :: k in keys <==> k in env.keys && Eligible(dir, registry, env, k)
  {
    SelectIsDistinct(dir, registry, env, env.keys);
  }

  /** What a call does to each interface, seen on its own. */
  lemma {:induction false} CallIsPointwise(dir: Direction, registry: Registry, env: Env, k: string)
    requires env.Fits(registry) && k in registry
    ensures k in Attempted(dir, registry, env) ==> k in env.keys && Eligible(dir, registry, env, k)
    ensures var outcome := Call(dir, registry, env);
            var forth := StepOf(dir, false, registry[k], k, env.faults);
            var back := StepOf(dir, true, forth.entry, k, env.rollbackFaults);
            && (outcome.result == Done ==>
                  if k in env.keys && Eligible(dir, registry, env, k)
                  then forth.ok && outcome.registry[k] == forth.entry else outcome.registry[k] == registry[k])
            && (outcome.result == Failed ==>
                  if k in Attempted(dir, registry, env)
                  then back.ok && outcome.registry[k] == back.entry else outcome.registry[k] == registry[k])
  {
    hide StepOf, FindInterfaces, Eligible, Sweep, Env.Gateway;
    var found := if env.opens then FindInterfaces(dir, registry, env) else None;
    if found.Some? {
      var keys := found.value;
      FoundAre(dir, registry, env);
      SweepIsPointwise(dir, false, registry, keys, env.faults);
      var forth := Sweep(dir, false, registry, keys, env.faults);
      if forth.ok {
        assert keys[..|keys|] == keys;
      } else {
        var touched := keys[..forth.attempted];
        SweepIsPointwise(dir, true, forth.registry, touched, env.rollbackFaults);
        assert touched[..|touched|] == touched;
      }
    }
  }

  lemma {:induction false} CallOnEntry(dir: Direction, original: Entry, registry: Registry, env: Env, k: string)
    requires env.Fits(registry) && k in registry && Recoverable(original, registry[k])
    requires Call(dir, registry, env).result != Panicked
    ensures var outcome := Call(dir, registry, env);
            && Recoverable(original, outcome.registry[k])
            && (outcome.result == Failed ==>
                  outcome.registry[k] == if dir == Subverting && k in Attempted(dir, registry, env) then original
                                         else registry[k])
            && (outcome.result == Done && dir == Reverting ==>
                  outcome.registry[k] == if k in env.keys && registry[k].backup.Some? then original else registry[k])
  {
    CallIsPointwise(dir, registry, env, k);
    hide Call, StepOf, Attempted;
    if Eligible(dir, registry, env, k) {
      StepForward(dir, original, registry[k], k, env.faults);
      var forth := StepOf(dir, false, registry[k], k, env.faults);
      if StepOf(dir, true, forth.entry, k, env.rollbackFaults).ok {
        StepBack(dir, original, registry[k], k, env.faults, env.rollbackFaults);
      }
    }
  }

  lemma {:induction false} SweepSucceedsIff(dir: Direction, rollback: bool, registry: Registry, keys: seq<string>,
                                            faults: set<Primitive>)
    requires AllDistinct(keys) && forall k :: k in keys ==> k in registry
    ensures Sweep(dir, rollback, registry, keys, faults).ok
            <==> forall k :: k in keys ==> StepOf(dir, rollback, registry[k], k, faults).ok
    decreases |keys|
  {
    if keys == [] {
    } else {
      var key, tail := keys[0], keys[1..];
      var step := StepOf(dir, rollback, registry[key], key, faults);
      hide StepOf;
      assert key in keys && key !in tail && AllDistinct(tail);
      SweepSucceedsIff(dir, rollback, registry[key := step.entry], tail, faults);
      assert forall k :: k in keys <==> k == key || k in tail;
    }
  }

  // When a call succeeds, and what it has done then

  /** The gateway that an interface's own values name: the one from DHCP if there is one. */
  ghost predicate NamesGateway(env: Env, k: string, gateway: string) {
    && gateway != ""
    && if k in env.dhcpDefaultGateway then env.dhcpDefaultGateway[k] == gateway
       else k in env.defaultGateway && env.defaultGateway[k] == gateway
  }

  /** An interface that a subvert takes on. */
  ghost predicate Candidate(registry: Registry, env: Env, k: string, gateway: string) {
    k in env.keys && k in registry && registry[k].nameServer.Some? && NamesGateway(env, k, gateway)
  }

  lemma {:induction false} CandidatesAreEligible(registry: Registry, env: Env, k: string)
    ensures forall g :: env.Gateway(k) == Some(g) <==> NamesGateway(env, k, g)
    ensures k in env.keys && Eligible(Subverting, registry, env, k) <==> exists g :: Candidate(registry, env, k, g)
  {
    if k in env.keys && Eligible(Subverting, registry, env, k) {
      assert Candidate(registry, env, k, env.Gateway(k).value);
    }
  }

  /** There are interfaces to take on, and they share a gateway. */
  ghost predicate OneGateway(registry: Registry, env: Env) {
    exists k, g :: Candidate(registry, env, k, g) && forall l, g' :: Candidate(registry, env, l, g') ==> g' == g
  }

  lemma {:induction false} FindsIff(registry: Registry, env: Env)
    requires env.Fits(registry)
    ensures FindInterfaces(Subverting, registry, env).Some? <==> OneGateway(registry, env)
  {
    var selected := Select(Subverting, registry, env, env.keys);
    forall k ensures k in selected <==> exists g :: Candidate(registry, env, k, g) {
      CandidatesAreEligible(registry, env, k);
    }
    forall k, g | Candidate(registry, env, k, g) ensures k in selected && env.Gateway(k) == Some(g) {
      CandidatesAreEligible(registry, env, k);
    }
    hide Select, Eligible, Env.Gateway, Candidate;
    if FindInterfaces(Subverting, registry, env).Some? {
      assert selected[0] in selected;
      var g :| Candidate(registry, env, selected[0], g);
      forall k, g' | Candidate(registry, env, k, g') ensures g' == g {
        var i :| 0 <= i < |selected| && selected[i] == k;
      }
    } else if OneGateway(registry, env) {
      NoDisagreement(registry, env, selected);
    }
  }

  lemma {:induction false} NoDisagreement(registry: Registry, env: Env, selected: seq<string>)
    requires forall k :: k in selected <==> exists g :: Candidate(registry, env, k, g)
    requires forall k, g :: Candidate(registry, env, k, g) ==> env.Gateway(k) == Some(g)
    requires OneGateway(registry, env)
    ensures selected != [] && forall i :: 0 <= i < |selected| ==> env.Gateway(selected[i]) == env.Gateway(selected[0])
  {
    hide Candidate, Env.Gateway;
    var k, g :| Candidate(registry, env, k, g) && forall l, g' :: Candidate(registry, env, l, g') ==> g' == g;
    assert k in selected;
    forall i | 0 <= i < |selected| ensures env.Gateway(selected[i]) == Some(g) {
      assert selected[i] in selected;
      var g' :| Candidate(registry, env, selected[i], g');
    }
  }

  /**
   * When `subvert` succeeds: exactly when some interface qualifies, all that qualify share a
   * gateway, and each is already subverted or has a sensible list and writes that do not fail.
   */
  lemma {:induction false} SubvertSucceedsIff(registry: Registry, env: Env)
    requires env.Fits(registry)
    ensures Call(Subverting, registry, env).result == Done
            <==> (&& env.opens && OneGateway(registry, env)
                  && forall k, g :: Candidate(registry, env, k, g) ==>
                       || IsSubverted(registry[k].nameServer.value)
                       || (&& !MakesNoSense(registry[k].nameServer.value)
                           && SetBackup(k) !in env.faults && SetNameServers(k) !in env.faults))
  {
    FindsIff(registry, env);
    forall k ensures k in env.keys && Eligible(Subverting, registry, env, k) <==> exists g :: Candidate(registry, env, k, g) {
      CandidatesAreEligible(registry, env, k);
    }
    if env.opens && FindInterfaces(Subverting, registry, env).Some? {
      var keys := FindInterfaces(Subverting, registry, env).value;
      FoundAre(Subverting, registry, env);
      SweepSucceedsIff(Subverting, false, registry, keys, env.faults);
      hide FindInterfaces, Eligible, Sweep, OneGateway, MakesNoSense, IsSubverted;
      assert forall k :: k in keys <==> exists g :: Candidate(registry, env, k, g);
    }
  }

  /** A successful subvert sets every interface it took on to localhost, its list backed up, and touches no other. */
  lemma {:induction false} SubvertTakesEffect(registry: Registry, env: Env, k: string)
    requires env.Fits(registry) && k in registry && Call(Subverting, registry, env).result == Done
    ensures Call(Subverting, registry, env).registry[k]
            == if (exists g :: Candidate(registry, env, k, g)) && !IsSubverted(registry[k].nameServer.value)
               then Entry(Some(LOCALHOST), registry[k].nameServer) else registry[k]
  {
    CallIsPointwise(Subverting, registry, env, k);
    CandidatesAreEligible(registry, env, k);
    hide Call;
  }

  /**
   * When `revert` succeeds: exactly when every backed-up interface that can be reached lets its backup
   * be deleted and, if it has name servers, lets them be set.
   */
  lemma {:induction false} RevertSucceedsIff(registry: Registry, env: Env)
    requires env.Fits(registry)
    ensures Call(Reverting, registry, env).result == Done
            <==> (&& env.opens
                  && forall k :: k in env.keys && registry[k].backup.Some? ==>
                       && DeleteBackup(k) !in env.faults
                       && (registry[k].nameServer.Some? ==> SetNameServers(k) !in env.faults))
  {
    if env.opens {
      var keys := FindInterfaces(Reverting, registry, env).value;
      FoundAre(Reverting, registry, env);
      SweepSucceedsIff(Reverting, false, registry, keys, env.faults);
    }
  }

  /** A successful revert puts every backup it can reach back, deletes it, and touches nothing else. */
  lemma {:induction false} RevertTakesEffect(registry: Registry, env: Env, k: string)
    requires env.Fits(registry) && k in registry && Call(Reverting, registry, env).result == Done
    ensures Call(Reverting, registry, env).registry[k]
            == if k in env.keys && registry[k].backup.Some?
               then Entry(if registry[k].nameServer.Some? then registry[k].backup else None, None) else registry[k]
  {
    CallIsPointwise(Reverting, registry, env, k);
    hide Call;
  }

  /** A rollback that meets no faults does not panic, in either direction, whatever the registry. */
  lemma {:induction false} FaultlessRollback(dir: Direction, registry: Registry, env: Env)
    requires env.Fits(registry) && env.rollbackFaults == {}
    ensures Call(dir, registry, env).result != Panicked
  {
    var found := if env.opens then FindInterfaces(dir, registry, env) else None;
    if found.Some? {
      var keys := found.value;
      FoundAre(dir, registry, env);
      SweepIsPointwise(dir, false, registry, keys, env.faults);
      var forth := Sweep(dir, false, registry, keys, env.faults);
      if !forth.ok {
        var touched := keys[..forth.attempted];
        forall k | k in touched ensures StepOf(dir, true, forth.registry[k], k, {}).ok {
          assert k in keys && Eligible(dir, registry, env, k);
          RollbackWithoutFaults(dir, registry[k], k, env.faults);
        }
        SweepSucceedsIff(dir, true, forth.registry, touched, {});
      }
    }
  }

  lemma {:induction false} RollbackWithoutFaults(dir: Direction, e: Entry, key: string, faults: set<Primitive>)
    requires dir == Subverting ==> e.nameServer.Some?
    ensures StepOf(dir, true, StepOf(dir, false, e, key, faults).entry, key, {}).ok
  {
  }

  /** The interfaces are worked on in the order in which they were enumerated. */
  lemma {:induction false} SelectInOrder(dir: Direction, registry: Registry, env: Env, keys: seq<string>, i: nat, j: nat)
    returns (p: nat, q: nat)
    requires forall l :: 0 <= l < |keys| ==> keys[l] in registry
    requires i < j < |Select(dir, registry, env, keys)|
    ensures p < q < |keys|
    ensures keys[p] == Select(dir, registry, env, keys)[i] && keys[q] == Select(dir, registry, env, keys)[j]
    decreases |keys|
  {
    hide Eligible;
    var rest := Select(dir, registry, env, keys[1..]);
    if !Eligible(dir, registry, env, keys[0]) {
      p, q := SelectInOrder(dir, registry, env, keys[1..], i, j);
      p, q := p + 1, q + 1;
    } else if i > 0 {
      p, q := SelectInOrder(dir, registry, env, keys[1..], i - 1, j - 1);
      p, q := p + 1, q + 1;
    } else {
      p := 0;
      assert rest[j - 1] in rest;
      var l :| 0 <= l < |keys[1..]| && keys[1..][l] == rest[j - 1];
      q := l + 1;
    }
  }

  lemma {:induction false} CallOnRegistry(dir: Direction, original: Registry, registry: Registry, env: Env)
    requires AllRecoverable(original, registry) && env.Fits(registry)
    requires Call(dir, registry, env).result != Panicked
    ensures var outcome := Call(dir, registry, env);
            && AllRecoverable(original, outcome.registry)
            && forall k :: k in registry ==>
                 && (outcome.result == Failed ==>
                       outcome.registry[k] == if dir == Subverting && k in Attempted(dir, registry, env) then original[k]
                                              else registry[k])
                 && (outcome.result == Done && dir == Reverting ==>
                       outcome.registry[k] == if k in env.keys && registry[k].backup.Some? then original[k] else registry[k])
  {
    var outcome := Call(dir, registry, env);
    hide Call, Recoverable, Attempted;
    forall k | k in registry
      ensures Recoverable(original[k], outcome.registry[k])
      ensures outcome.result == Failed ==>
                outcome.registry[k] == if dir == Subverting && k in Attempted(dir, registry, env) then original[k]
                                       else registry[k]
      ensures outcome.result == Done && dir == Reverting ==>
                outcome.registry[k] == if k in env.keys && registry[k].backup.Some? then original[k] else registry[k]
    {
      CallOnEntry(dir, original[k], registry, env, k);
    }
  }

  /**
   * All or nothing: a failing `revert` leaves a recoverable registry exactly as it was. A failing
   * `subvert` resets the interfaces it touched to their originals; it leaves the registry as it
   * was exactly when none of those was subverted already, and so always when there are no backups.
   * `FailsCleanlyIff` says it of the registry before the call, for all ways in which writes can fail.
   */
  lemma {:induction false} AllOrNothing(dir: Direction, original: Registry, registry: Registry, env: Env)
    requires AllRecoverable(original, registry) && env.Fits(registry)
    requires Call(dir, registry, env).result == Failed
    ensures var registry' := Call(dir, registry, env).registry;
            && (dir == Reverting ==> registry' == registry)
            && (dir == Subverting ==>
                  && (forall k :: k in registry ==>
                        registry'[k] == if k in Attempted(dir, registry, env) then original[k] else registry[k])
                  && (registry' == registry
                      <==> forall k :: k in Attempted(dir, registry, env) ==> registry[k].backup == None))
  {
    hide Call, Attempted, MakesNoSense;
    CallOnRegistry(dir, original, registry, env);
    var registry' := Call(dir, registry, env).registry;
    assert forall k :: k in registry ==> (original[k] == registry[k] <==> registry[k].backup == None);
    hide Recoverable;
    if dir == Subverting && registry' == registry {
      assert forall k :: k in Attempted(dir, registry, env) ==> registry'[k] == original[k];
    }
  }

  // When a failing subvert can do damage

  /** The interfaces a subvert would work on; none when it gives up before touching any. */
  function ToSubvert(registry: Registry, env: Env): (keys: seq<string>)
    requires env.Fits(registry)
    ensures forall k :: k in keys ==> k in registry && registry[k].nameServer.Some?
  {
    var found := if env.opens then FindInterfaces(Subverting, registry, env) else None;
    if found.Some? then found.value else []
  }

  /** The same circumstances with other writes failing. */
  function WithFaults(env: Env, faults: set<Primitive>, rollbackFaults: set<Primitive>): Env {
    env.(faults := faults, rollbackFaults := rollbackFaults)
  }

  predicate NeedsSubverting(e: Entry) {
    e.nameServer.Some? && !IsSubverted(e.nameServer.value)
  }

  /**
   * Interface `i` is subverted and backed up, a later interface `j` still has to be subverted, so
   * that its writes can fail, and no interface before `i` is sure to stop the sweep.
   */
  ghost predicate Exposed(registry: Registry, keys: seq<string>, i: nat, j: nat) {
    && i < j < |keys| && (forall k :: k in keys ==> k in registry)
    && registry[keys[i]].backup.Some?
    && NeedsSubverting(registry[keys[j]])
    && forall l :: 0 <= l < i && NeedsSubverting(registry[keys[l]]) ==>
         !MakesNoSense(registry[keys[l]].nameServer.value)
  }

  /** If the subvert fails under these faults, and its rollback does not, the registry is as it was. */
  ghost predicate FailsCleanly(registry: Registry, env: Env, faults: set<Primitive>, rollbackFaults: set<Primitive>)
    requires env.Fits(registry)
  {
    var outcome := Call(Subverting, registry, WithFaults(env, faults, rollbackFaults));
    outcome.result == Failed ==> outcome.registry == registry
  }

  /** A sweep that stops does so at the first interface whose step is not ok. */
  lemma {:induction false} SweepStops(dir: Direction, rollback: bool, registry: Registry, keys: seq<string>,
                                      faults: set<Primitive>)
    requires AllDistinct(keys) && forall k :: k in keys ==> k in registry
    ensures var swept := Sweep(dir, rollback, registry, keys, faults);
            !swept.ok ==>
              && 0 < swept.attempted <= |keys|
              && !StepOf(dir, rollback, registry[keys[swept.attempted - 1]], keys[swept.attempted - 1], faults).ok
              && forall l :: 0 <= l < swept.attempted - 1 ==> StepOf(dir, rollback, registry[keys[l]], keys[l], faults).ok
    decreases |keys|
  {
    if keys == [] {
    } else {
      var key, tail := keys[0], keys[1..];
      var step := StepOf(dir, rollback, registry[key], key, faults);
      hide StepOf;
      if step.ok {
        var registry' := registry[key := step.entry];
        assert forall l :: 0 <= l < |tail| ==> tail[l] == keys[l + 1] && registry'[tail[l]] == registry[tail[l]];
        SweepStops(dir, rollback, registry', tail, faults);
        assert forall l :: 0 < l < |keys| ==> keys[l] == tail[l - 1];
      }
    }
  }

  lemma {:induction false} AttemptedPrefix(registry: Registry, env: Env)
    requires env.Fits(registry)
    ensures AllDistinct(ToSubvert(registry, env))
    ensures var keys := ToSubvert(registry, env);
            var swept := Sweep(Subverting, false, registry, keys, env.faults);
            && swept.attempted <= |keys|
            && forall k :: k in Attempted(Subverting, registry, env) <==> k in keys[..swept.attempted]
    ensures Call(Subverting, registry, env).result == Failed && ToSubvert(registry, env) != [] ==>
              !Sweep(Subverting, false, registry, ToSubvert(registry, env), env.faults).ok
  {
    hide StepOf;
    SelectIsDistinct(Subverting, registry, env, env.keys);
    SweepIsPointwise(Subverting, false, registry, ToSubvert(registry, env), env.faults);
  }

  lemma {:induction false} StoppedIsExposed(original: Registry, registry: Registry, keys: seq<string>,
                                            faults: set<Primitive>, i: nat)
    requires AllRecoverable(original, registry) && AllDistinct(keys)
    requires forall k :: k in keys ==> k in registry && registry[k].nameServer.Some?
    requires var swept := Sweep(Subverting, false, registry, keys, faults); !swept.ok && i < swept.attempted
    requires i < |keys| && registry[keys[i]].backup.Some?
    ensures var swept := Sweep(Subverting, false, registry, keys, faults);
            swept.attempted > 0 && Exposed(registry, keys, i, swept.attempted - 1)
  {
    SweepStops(Subverting, false, registry, keys, faults);
    hide Sweep, MakesNoSense;
    assert IsSubverted(LOCALHOST);
    assert keys[i] in keys && registry[keys[i]].nameServer == Some(LOCALHOST);
    assert forall l :: 0 <= l < |keys| ==> keys[l] in keys;
  }

  lemma {:induction false} DamageMeansExposed(original: Registry, registry: Registry, env: Env)
    returns (i: nat, j: nat)
    requires AllRecoverable(original, registry) && env.Fits(registry)
    requires Call(Subverting, registry, env).result == Failed && Call(Subverting, registry, env).registry != registry
    ensures Exposed(registry, ToSubvert(registry, env), i, j)
  {
    hide Call, Attempted, Sweep, ToSubvert, AllRecoverable, Exposed;
    var keys := ToSubvert(registry, env);
    var attempted := Sweep(Subverting, false, registry, keys, env.faults).attempted;
    AllOrNothing(Subverting, original, registry, env);
    AttemptedPrefix(registry, env);
    var k :| k in Attempted(Subverting, registry, env) && registry[k].backup != None;
    assert k in keys[..attempted];
    i :| 0 <= i < attempted && keys[i] == k;
    j := attempted - 1;
    StoppedIsExposed(original, registry, keys, env.faults, i);
  }

  /** With one failing write, at interface `j`, the sweep stops, but only after interface `i`. */
  lemma {:induction false} SweepGetsPast(original: Registry, registry: Registry, keys: seq<string>, i: nat, j: nat)
    requires AllRecoverable(original, registry) && AllDistinct(keys)
    requires Exposed(registry, keys, i, j) && forall k :: k in keys ==> registry[k].nameServer.Some?
    ensures var swept := Sweep(Subverting, false, registry, keys, {SetBackup(keys[j])});
            !swept.ok && i < swept.attempted
  {
    var faults := {SetBackup(keys[j])};
    SweepSucceedsIff(Subverting, false, registry, keys, faults);
    SweepStops(Subverting, false, registry, keys, faults);
    hide Sweep, MakesNoSense, IsSubverted;
    assert !StepOf(Subverting, false, registry[keys[j]], keys[j], faults).ok && keys[j] in keys;
    forall l | 0 <= l <= i ensures StepOf(Subverting, false, registry[keys[l]], keys[l], faults).ok {
      assert keys[l] != keys[j] && keys[l] in keys;
      LocalhostIsSubverted();
    }
  }

  lemma LocalhostIsSubverted()
    ensures IsSubverted(LOCALHOST)
  {
  }

  /** So the rollback resets interface `i`. */
  lemma {:induction false} ExposedMeansDamage(original: Registry, registry: Registry, env: Env, i: nat, j: nat)
    requires AllRecoverable(original, registry) && env.Fits(registry)
    requires Exposed(registry, ToSubvert(registry, env), i, j)
    ensures !FailsCleanly(registry, env, {SetBackup(ToSubvert(registry, env)[j])}, {})
  {
    hide Sweep, Call, Attempted, AllRecoverable;
    var keys := ToSubvert(registry, env);
    assert keys[i] in keys && registry[keys[i]].backup.Some?;
    AttemptedPrefix(registry, env);
    SweepGetsPast(original, registry, keys, i, j);
    hide ToSubvert, Exposed;
    var faults := {SetBackup(keys[j])};
    var env' := WithFaults(env, faults, {});
    SameInterfaces(registry, env, faults, {});
    AttemptedPrefix(registry, env');
    var attempted := Sweep(Subverting, false, registry, keys, faults).attempted;
    assert keys[i] == keys[..attempted][i];
    CleanRollback(registry, env');
    AllOrNothing(Subverting, original, registry, env');
  }

  lemma {:induction false} SameInterfaces(registry: Registry, env: Env, faults: set<Primitive>, rollbackFaults: set<Primitive>)
    requires env.Fits(registry)
    ensures ToSubvert(registry, WithFaults(env, faults, rollbackFaults)) == ToSubvert(registry, env)
  {
    var env' := WithFaults(env, faults, rollbackFaults);
    SameSelection(registry, env, faults, rollbackFaults, env.keys);
    assert forall k :: env'.Gateway(k) == env.Gateway(k);
    hide Select, Eligible, Env.Gateway, Env.Fits;
  }

  lemma {:induction false} SameSelection(registry: Registry, env: Env, faults: set<Primitive>,
                                         rollbackFaults: set<Primitive>, keys: seq<string>)
    requires forall i :: 0 <= i < |keys| ==> keys[i] in registry
    ensures Select(Subverting, registry, WithFaults(env, faults, rollbackFaults), keys)
            == Select(Subverting, registry, env, keys)
  {
    if keys == [] {
    } else {
      SameSelection(registry, env, faults, rollbackFaults, keys[1..]);
    }
  }

  lemma {:induction false} CleanRollback(registry: Registry, env: Env)
    requires env.Fits(registry) && env.rollbackFaults == {}
    requires ToSubvert(registry, env) != []
    requires !Sweep(Subverting, false, registry, ToSubvert(registry, env), env.faults).ok
    ensures Call(Subverting, registry, env).result == Failed
  {
    hide Sweep;
    FaultlessRollback(Subverting, registry, env);
  }

  /**
   * A failing `subvert` leaves a recoverable registry as it was, whichever writes fail, if and only
   * if no subverted interface is followed by one that still has to be subverted, unless the sweep is
   * sure to stop before it. All of this can be read off the registry before the call.
   */
  lemma {:induction false} FailsCleanlyIff(original: Registry, registry: Registry, env: Env)
    requires AllRecoverable(original, registry) && env.Fits(registry)
    ensures (forall faults, rollbackFaults :: FailsCleanly(registry, env, faults, rollbackFaults))
            <==> forall i, j :: !Exposed(registry, ToSubvert(registry, env), i, j)
  {
    hide Exposed, ToSubvert, AllRecoverable;
    if i, j :| Exposed(registry, ToSubvert(registry, env), i, j) {
      ExposedMeansDamage(original, registry, env, i, j);
    } else {
      forall faults, rollbackFaults ensures FailsCleanly(registry, env, faults, rollbackFaults) {
        var env' := WithFaults(env, faults, rollbackFaults);
        SameInterfaces(registry, env, faults, rollbackFaults);
        if !FailsCleanly(registry, env, faults, rollbackFaults) {
          var i, j := DamageMeansExposed(original, registry, env');
          assert false;
        }
      }
    }
  }

  /** Two interfaces behind one gateway, the first subverted by an earlier call, the second not. */
  const HALF_SUBVERTED: Registry :=
    map["a" := Entry(Some(LOCALHOST), Some("8.8.8.8")), "b" := Entry(Some("1.1.1.1"), None)]

  const RESET: Registry := map["a" := Entry(Some("8.8.8.8"), None), "b" := Entry(Some("1.1.1.1"), None)]

  lemma {:induction false} HalfSubvertedSweeps()
    ensures Sweep(Subverting, false, HALF_SUBVERTED, ["a", "b"], {SetBackup("b")}) == Swept(HALF_SUBVERTED, 2, false)
    ensures Sweep(Subverting, true, HALF_SUBVERTED, ["a", "b"], {}) == Swept(RESET, 2, true)
  {
    var faults := {SetBackup("b")};
    var a, b := HALF_SUBVERTED["a"], HALF_SUBVERTED["b"];
    LocalhostIsSubverted();
    assert !IsSubverted("1.1.1.1");
    hide MakesNoSense, IsSubverted;
    assert ["a", "b"][1..] == ["b"];
    assert SubvertInterface(a, "a", faults) == Step(a, true) && SubvertInterface(b, "b", faults) == Step(b, false);
    assert HALF_SUBVERTED["a" := a] == HALF_SUBVERTED["b" := b] == HALF_SUBVERTED;
    assert Sweep(Subverting, false, HALF_SUBVERTED, ["b"], faults) == Swept(HALF_SUBVERTED, 1, false);
    assert HALF_SUBVERTED["a" := Entry(Some("8.8.8.8"), None)] == RESET == RESET["b" := b];
    assert ["b"][1..] == [] && Sweep(Subverting, true, RESET, ["b"][1..], {}) == Swept(RESET, 0, true);
    assert Sweep(Subverting, true, RESET, ["b"], {}) == Swept(RESET, 1, true);
  }

  /** The smallest such damage: the backup of the second cannot be written, and the first is reset. */
  lemma {:induction false} FailureResetsSubverted(gateway: string)
    requires gateway != ""
    ensures var gateways := map["a" := gateway, "b" := gateway];
            var env := Env(true, ["a", "b"], gateways, map[], {SetBackup("b")}, {});
            env.Fits(HALF_SUBVERTED) && Call(Subverting, HALF_SUBVERTED, env) == Outcome(RESET, Failed)
  {
    var env := Env(true, ["a", "b"], map["a" := gateway, "b" := gateway], map[], {SetBackup("b")}, {});
    assert ["a", "b"][1..] == ["b"] && ["b"][1..] == [] && ["a", "b"][..2] == ["a", "b"];
    assert Select(Subverting, HALF_SUBVERTED, env, ["b"]) == ["b"];
    assert Select(Subverting, HALF_SUBVERTED, env, ["a", "b"]) == ["a", "b"];
    hide Select, Sweep;
    HalfSubvertedSweeps();
  }

  lemma {:induction false} NoBackupsIsRecoverable(registry: Registry)
    requires forall k :: k in registry ==> registry[k].backup == None
    ensures AllRecoverable(registry, registry)
  {
  }

  /** Any number of calls, each in its own circumstances, none of which panics during rollback. */
  ghost predicate IsRun(states: seq<Registry>, calls: seq<(Direction, Env)>) {
    && |states| == |calls| + 1
    && forall i :: 0 <= i < |calls| ==>
         && calls[i].1.Fits(states[i])
         && Call(calls[i].0, states[i], calls[i].1).registry == states[i + 1]
         && Call(calls[i].0, states[i], calls[i].1).result != Panicked
  }

  /**
   * Recoverability: starting without backups, after every run of subverts and reverts with
   * arbitrary failures and arbitrary changes of the eligible interfaces, each interface is either
   * as it was originally or set to localhost with its original backed up.
   */
  lemma {:induction false} RunsAreRecoverable(states: seq<Registry>, calls: seq<(Direction, Env)>)
    requires IsRun(states, calls) && forall k :: k in states[0] ==> states[0][k].backup == None
    ensures AllRecoverable(states[0], states[|calls|])
    decreases |calls|
  {
    if calls == [] {
      NoBackupsIsRecoverable(states[0]);
    } else {
      hide Call, Recoverable;
      var n := |calls| - 1;
      RunsAreRecoverable(states[..n + 1], calls[..n]);
      CallOnRegistry(calls[n].0, states[0], states[n], calls[n].1);
    }
  }

  /**
   * Round trip: without backups to begin with, a successful subvert followed by a successful revert
   * restores the whole registry exactly when the revert could reach every interface that changed.
   */
  lemma {:induction false} RoundTrip(registry: Registry, there: Env, back: Env)
    requires forall k :: k in registry ==> registry[k].backup == None
    requires there.Fits(registry) && Call(Subverting, registry, there).result == Done
    requires var subverted := Call(Subverting, registry, there).registry;
             back.Fits(subverted) && Call(Reverting, subverted, back).result == Done
    ensures var subverted := Call(Subverting, registry, there).registry;
            Call(Reverting, subverted, back).registry == registry
            <==> forall k :: k in registry && subverted[k] != registry[k] ==> k in back.keys
  {
    hide Call, Attempted, MakesNoSense;
    NoBackupsIsRecoverable(registry);
    CallOnRegistry(Subverting, registry, registry, there);
    var subverted := Call(Subverting, registry, there).registry;
    CallOnRegistry(Reverting, registry, subverted, back);
    var restored := Call(Reverting, subverted, back).registry;
    assert forall k :: k in registry ==> (subverted[k].backup.Some? <==> subverted[k] != registry[k]);
    hide AllRecoverable, Recoverable, Env.Fits;
    assert forall k :: k in registry ==>
             (restored[k] == registry[k] <==> (subverted[k] != registry[k] ==> k in back.keys));
  }
}
