/** The ban list of node/src/banned_dao.rs: a database table and the cache in front of it. */
module BanCache {
  import opened Basics

  type Address = Bytes

  /** Wallets of every kind carry an address, except an uninitialised one. */
  datatype Wallet =
    | AddressWallet(address: Address)
    | PublicKeyWallet(key: Bytes, address: Address)
    | KeyPairWallet(secret: Bytes, address: Address)

  function AsAddressWallet(w: Wallet): Wallet {
    AddressWallet(w.address)
  }

  class BannedDao {
    /** Rows of the table, one for each banned address; the column is unique. */
    var table: set<Address>
    var cache: set<Wallet>

    ghost predicate Agreement()
      reads this
    {
      && (forall w :: w in cache ==> w.AddressWallet? && w.address in table)
      && (forall a :: a in table ==> AddressWallet(a) in cache)
    }

    /** Starts with an empty cache and fills it from the table. */
    constructor (table: set<Address>)
      ensures this.table == table && Agreement()
    {
      this.table := table;
      var filled: set<Wallet> := {};
      var rows := table;
      while rows != {}
        invariant rows <= table
        invariant forall w :: w in filled ==> w.AddressWallet? && w.address in table
        invariant forall a :: a in table && a !in rows ==> AddressWallet(a) in filled
        decreases rows
      {
        var a :| a in rows;
        filled := filled + {AddressWallet(a)};
        rows := rows - {a};
      }
      cache := filled;
    }

    method IsBanned(w: Wallet) returns (banned: bool)
      requires Agreement()
      ensures banned <==> w.address in table
    {
      banned := AsAddressWallet(w) in cache;
    }

    method Ban(w: Wallet)
      requires Agreement()
      modifies this
      ensures Agreement() && table == old(table) + {w.address}
    {
      if AsAddressWallet(w) in cache {
        return;
      }
      // A second row for the address violates the constraint; the cache is updated all the same.
      table := table + {w.address};
      cache := cache + {AsAddressWallet(w)};
    }

    method Unban(w: Wallet)
      requires Agreement()
      modifies this
      ensures Agreement() && table == old(table) - {w.address}
    {
      if AsAddressWallet(w) !in cache {
        return;
      }
      table := table - {w.address};
      cache := cache - {AsAddressWallet(w)};
    }
  }

  // Concurrent callers: a check of the cache, a write to the table and a write to the cache, interleaved

  datatype Operation = Ban(address: Address) | Unban(address: Address)

  datatype Progress = Called | Checked | Stored | Finished

  datatype Thread = Thread(op: Operation, progress: Progress)

  datatype System = System(table: set<Address>, cache: set<Address>, threads: seq<Thread>)

  function Step(s: System, i: nat): System
    requires i < |s.threads|
  {
    var Thread(op, progress) := s.threads[i];
    var a := op.address;
    match progress
    case Called =>
      var idle := op.Ban? == (a in s.cache);
      s.(threads := s.threads[i := Thread(op, if idle then Finished else Checked)])
    case Checked =>
      s.(table := if op.Ban? then s.table + {a} else s.table - {a}, threads := s.threads[i := Thread(op, Stored)])
    case Stored =>
      s.(cache := if op.Ban? then s.cache + {a} else s.cache - {a}, threads := s.threads[i := Thread(op, Finished)])
    case Finished => s
  }

  ghost predicate Schedulable(s: System, schedule: seq<nat>) {
    forall k :: 0 <= k < |schedule| ==> schedule[k] < |s.threads|
  }

  /** The system after its threads have been scheduled in the given order. */
  function Run(s: System, schedule: seq<nat>): (r: System)
    requires Schedulable(s, schedule)
    ensures |r.threads| == |s.threads|
    decreases |schedule|
  {
    if schedule == [] then s else Run(Step(s, schedule[0]), schedule[1..])
  }

  /** Calls that have not done anything yet, on a cache that agrees with the table. */
  ghost predicate IsStart(s: System) {
    s.cache == s.table && forall i :: 0 <= i < |s.threads| ==> s.threads[i].progress == Called
  }

  ghost predicate AllFinished(s: System) {
    forall i :: 0 <= i < |s.threads| ==> s.threads[i].progress == Finished
  }

  ghost predicate Requested(s: System, op: Operation) {
    exists i :: 0 <= i < |s.threads| && s.threads[i].op == op
  }

  /** No address is being banned by one caller and unbanned by another. */
  ghost predicate Unmixed(s: System) {
    forall a :: !(Requested(s, Ban(a)) && Requested(s, Unban(a)))
  }

  /** Some caller has done the first, but not the second, of its two writes. */
  ghost predicate Storing(s: System, op: Operation) {
    exists i :: 0 <= i < |s.threads| && s.threads[i] == Thread(op, Stored)
  }

  /** Table and cache differ only where a caller is between its two writes; calls that wrote have their way. */
  ghost predicate Inv(s: System, initial: set<Address>) {
    && Unmixed(s)
    && (forall i :: 0 <= i < |s.threads| && (s.threads[i].progress == Stored || s.threads[i].progress == Finished) ==>
          (s.threads[i].op.Ban? <==> s.threads[i].op.address in s.table))
    && (forall a :: a in s.cache && a !in s.table ==> Storing(s, Unban(a)))
    && (forall a :: a in s.table && a !in s.cache ==> Storing(s, Ban(a)))
    && (forall a :: a in s.table && a !in initial ==> Requested(s, Ban(a)))
    && (forall a :: a !in s.table && a in initial ==> Requested(s, Unban(a)))
  }

  lemma {:induction false} StepKeepsThreads(s: System, i: nat)
    requires i < |s.threads|
    ensures forall op :: Requested(Step(s, i), op) <==> Requested(s, op)
    ensures forall op :: Storing(s, op) && (op != s.threads[i].op || s.threads[i].progress != Stored) ==>
              Storing(Step(s, i), op)
    ensures s.threads[i].progress == Checked ==> Storing(Step(s, i), s.threads[i].op)
  {
    var s' := Step(s, i);
    forall op ensures Requested(s', op) <==> Requested(s, op) {
      assert forall j :: 0 <= j < |s.threads| ==> s'.threads[j].op == s.threads[j].op;
    }
    forall op | Storing(s, op) && (op != s.threads[i].op || s.threads[i].progress != Stored) ensures Storing(s', op) {
      var j :| 0 <= j < |s.threads| && s.threads[j] == Thread(op, Stored);
      assert s'.threads[j] == Thread(op, Stored);
    }
    if s.threads[i].progress == Checked {
      assert s'.threads[i] == Thread(s.threads[i].op, Stored);
    }
  }

  lemma {:induction false} StoringIsRequested(s: System, op: Operation)
    ensures Storing(s, op) ==> Requested(s, op)
  {
  }

  /** What the invariant says about one address. */
  ghost predicate InvAt(s: System, initial: set<Address>, a: Address) {
    && (a in s.cache && a !in s.table ==> Storing(s, Unban(a)))
    && (a in s.table && a !in s.cache ==> Storing(s, Ban(a)))
    && (a in s.table && a !in initial ==> Requested(s, Ban(a)))
    && (a !in s.table && a in initial ==> Requested(s, Unban(a)))
  }

  lemma {:induction false} StepKeepsInvAt(s: System, i: nat, initial: set<Address>, a: Address)
    requires Inv(s, initial) && i < |s.threads|
    ensures InvAt(Step(s, i), initial, a)
  {
    StepKeepsThreads(s, i);
    assert InvAt(s, initial, a) && Requested(s, s.threads[i].op);
    StoringIsRequested(s, Ban(a));
    StoringIsRequested(s, Unban(a));
    hide Storing, Requested;
  }

  lemma {:induction false} StepKeepsInv(s: System, i: nat, initial: set<Address>)
    requires Inv(s, initial) && i < |s.threads|
    ensures Inv(Step(s, i), initial)
  {
    var s' := Step(s, i);
    StepKeepsThreads(s, i);
    forall a ensures InvAt(s', initial, a) {
      StepKeepsInvAt(s, i, initial, a);
    }
    forall j | 0 <= j < |s'.threads| && (s'.threads[j].progress == Stored || s'.threads[j].progress == Finished)
      ensures s'.threads[j].op.Ban? <==> s'.threads[j].op.address in s'.table
    {
      FinishedCallsHold(s, i, initial, j);
    }
    hide Storing, Requested, Step;
  }

  lemma {:induction false} FinishedCallsHold(s: System, i: nat, initial: set<Address>, j: nat)
    requires Inv(s, initial) && i < |s.threads| && j < |s.threads|
    requires var p := Step(s, i).threads[j].progress; p == Stored || p == Finished
    ensures var op := Step(s, i).threads[j].op; op.Ban? <==> op.address in Step(s, i).table
  {
    var op, other := s.threads[i].op, s.threads[j].op;
    assert Requested(s, op) && Requested(s, other) && Step(s, i).threads[j].op == other;
    StoringIsRequested(s, Ban(other.address));
    StoringIsRequested(s, Unban(other.address));
    hide Storing, Requested;
  }

  lemma {:induction false} RunKeepsInv(s: System, schedule: seq<nat>, initial: set<Address>)
    requires Inv(s, initial) && Schedulable(s, schedule)
    ensures Inv(Run(s, schedule), initial)
    decreases |schedule|
  {
    hide Inv;
    if schedule == [] {
    } else {
      StepKeepsInv(s, schedule[0], initial);
      RunKeepsInv(Step(s, schedule[0]), schedule[1..], initial);
    }
  }

  lemma {:induction false} RunKeepsOps(s: System, schedule: seq<nat>, op: Operation)
    requires Schedulable(s, schedule)
    ensures Requested(Run(s, schedule), op) <==> Requested(s, op)
    decreases |schedule|
  {
    if schedule == [] {
    } else {
      StepKeepsThreads(s, schedule[0]);
      RunKeepsOps(Step(s, schedule[0]), schedule[1..], op);
    }
  }

  /**
   * Any number of concurrent calls, none of which bans an address that another unbans, scheduled
   * in any order: an address in the cache but not in the table is just being unbanned, one in the
   * table but not in the cache is just being banned, and once all calls have finished the two
   * agree and every call has taken effect.
   */
  lemma {:induction false} ConcurrentCallsAgree(s: System, schedule: seq<nat>, a: Address)
    requires IsStart(s) && Unmixed(s) && Schedulable(s, schedule)
    ensures var r := Run(s, schedule);
            && (a in r.cache && a !in r.table ==> Requested(s, Unban(a)) && Storing(r, Unban(a)))
            && (a in r.table && a !in r.cache ==> Requested(s, Ban(a)) && Storing(r, Ban(a)))
            && (AllFinished(r) ==>
                  && (a in r.cache <==> a in r.table)
                  && (a in r.table <==> Requested(s, Ban(a)) || (a in s.table && !Requested(s, Unban(a)))))
  {
    assert Inv(s, s.table);
    RunKeepsInv(s, schedule, s.table);
    RunKeepsOps(s, schedule, Ban(a));
    RunKeepsOps(s, schedule, Unban(a));
    var r := Run(s, schedule);
    hide Run;
    StoringIsRequested(r, Ban(a));
    StoringIsRequested(r, Unban(a));
  }

  // With both kinds of call on one address, the cache and the table can part for good

  function Opposite(op: Operation): Operation {
    if op.Ban? then Unban(op.address) else Ban(op.address)
  }

  /** The operation that changes the standing of an address whose initial standing is `banned`. */
  function Flip(a: Address, banned: bool): Operation {
    if banned then Unban(a) else Ban(a)
  }

  /** Calls `i` and `j` would both change the standing of an address, and call `k` would change it back. */
  ghost predicate Hazard(s: System, i: nat, j: nat, k: nat) {
    && i < |s.threads| && j < |s.threads| && k < |s.threads| && i != j
    && var op := s.threads[i].op;
       op == Flip(op.address, op.address in s.table) && s.threads[j].op == op && s.threads[k].op == Opposite(op)
  }

  /** A schedule that lets every call finish leaves the cache equal to the table. */
  ghost predicate EndsInAgreement(s: System, schedule: seq<nat>) {
    Schedulable(s, schedule) && AllFinished(Run(s, schedule)) ==> Run(s, schedule).cache == Run(s, schedule).table
  }

  /** While a call that changes the standing of `a` is under way, calls that change it back do nothing. */
  ghost predicate Early(s: System, a: Address, banned: bool) {
    var flip := Flip(a, banned);
    && (forall t :: 0 <= t < |s.threads| && s.threads[t].op == Opposite(flip) ==>
          s.threads[t].progress == Called || s.threads[t].progress == Finished)
    && (Storing(s, flip) ==> (a in s.table) != banned)
    && ((a in s.table) != (a in s.cache) ==> Storing(s, flip))
    && (Requested(s, Opposite(flip)) ==>
          && (a in s.cache) == banned
          && forall t :: 0 <= t < |s.threads| && s.threads[t].op == flip ==> s.threads[t].progress != Finished)
  }

  /** Once it has finished, only calls that change the standing back remain. */
  ghost predicate Late(s: System, a: Address, banned: bool) {
    var flip := Flip(a, banned);
    && (forall t :: 0 <= t < |s.threads| && s.threads[t].op == flip ==> s.threads[t].progress == Finished)
    && (Storing(s, Opposite(flip)) ==> (a in s.table) == banned)
    && ((a in s.table) != (a in s.cache) ==> Storing(s, Opposite(flip)))
  }

  /** If any call changes the standing of `a` back, at most one changes it. */
  ghost predicate Sole(s: System, a: Address, banned: bool) {
    Requested(s, Opposite(Flip(a, banned))) ==>
      forall t, u :: 0 <= t < u < |s.threads| ==> !(s.threads[t].op == s.threads[u].op == Flip(a, banned))
  }

  lemma {:induction false} OtherAddress(s: System, i: nat, a: Address, banned: bool)
    requires i < |s.threads| && s.threads[i].op.address != a
    ensures Early(s, a, banned) ==> Early(Step(s, i), a, banned)
    ensures Late(s, a, banned) ==> Late(Step(s, i), a, banned)
  {
    var s' := Step(s, i);
    StepKeepsThreads(s, i);
    assert forall t :: 0 <= t < |s.threads| && t != i ==> s'.threads[t] == s.threads[t];
    assert s'.threads[i].op == s.threads[i].op;
    assert forall op: Operation :: op.address == a && Storing(s', op) ==> Storing(s, op);
    hide Storing, Requested, Step;
  }

  /** A call leaves `Storing` unless it has just stored. */
  lemma {:induction false} StoringOnlyBy(s: System, i: nat, op: Operation)
    requires i < |s.threads| && Storing(Step(s, i), op)
    ensures Storing(s, op) || (s.threads[i] == Thread(op, Checked))
  {
    var s' := Step(s, i);
    var t :| 0 <= t < |s'.threads| && s'.threads[t] == Thread(op, Stored);
    assert t != i ==> s.threads[t] == s'.threads[t];
  }

  lemma {:induction false} EarlyStep(s: System, i: nat, a: Address, banned: bool)
    requires i < |s.threads| && s.threads[i].op.address == a
    requires Early(s, a, banned) && Sole(s, a, banned)
    ensures Early(Step(s, i), a, banned) || Late(Step(s, i), a, banned)
  {
    var s' := Step(s, i);
    var flip := Flip(a, banned);
    var back := Opposite(flip);
    StepKeepsThreads(s, i);
    assert forall t :: 0 <= t < |s.threads| && t != i ==> s'.threads[t] == s.threads[t];
    assert Requested(s, s.threads[i].op);
    if Storing(s', flip) {
      StoringOnlyBy(s, i, flip);
    }
    if Storing(s', back) {
      StoringOnlyBy(s, i, back);
      assert !Storing(s, back);
    }
    if s.threads[i] == Thread(flip, Stored) {
      assert Storing(s, flip);
    }
    hide Storing, Requested;
  }

  lemma {:induction false} LateStep(s: System, i: nat, a: Address, banned: bool)
    requires i < |s.threads| && s.threads[i].op.address == a
    requires Late(s, a, banned)
    ensures Late(Step(s, i), a, banned)
  {
    var s' := Step(s, i);
    var back := Opposite(Flip(a, banned));
    StepKeepsThreads(s, i);
    assert forall t :: 0 <= t < |s.threads| && t != i ==> s'.threads[t] == s.threads[t];
    if Storing(s', back) {
      StoringOnlyBy(s, i, back);
    }
    if s.threads[i] == Thread(back, Stored) {
      assert Storing(s, back);
    }
    hide Storing, Requested;
  }

  lemma {:induction false} StepKeepsSole(s: System, i: nat, a: Address, banned: bool)
    requires i < |s.threads| && Sole(s, a, banned)
    ensures Sole(Step(s, i), a, banned)
  {
    StepKeepsThreads(s, i);
    assert forall t :: 0 <= t < |s.threads| ==> Step(s, i).threads[t].op == s.threads[t].op;
    hide Requested, Step;
  }

  lemma {:induction false} RunKeepsPhase(s: System, schedule: seq<nat>, a: Address, banned: bool)
    requires Schedulable(s, schedule) && Sole(s, a, banned) && (Early(s, a, banned) || Late(s, a, banned))
    ensures Early(Run(s, schedule), a, banned) || Late(Run(s, schedule), a, banned)
    decreases |schedule|
  {
    hide Early, Late, Sole;
    if schedule == [] {
    } else {
      var i := schedule[0];
      StepKeepsSole(s, i, a, banned);
      if s.threads[i].op.address != a {
        OtherAddress(s, i, a, banned);
      } else if Early(s, a, banned) {
        EarlyStep(s, i, a, banned);
      } else {
        LateStep(s, i, a, banned);
      }
      RunKeepsPhase(Step(s, i), schedule[1..], a, banned);
    }
  }

  lemma {:induction false} NoHazardMeansAgreement(s: System, schedule: seq<nat>)
    requires IsStart(s) && forall i, j, k :: !Hazard(s, i, j, k)
    ensures EndsInAgreement(s, schedule)
  {
    if Schedulable(s, schedule) && AllFinished(Run(s, schedule)) {
      var r := Run(s, schedule);
      forall a ensures a in r.cache <==> a in r.table {
        var banned := a in s.table;
        NoHazardIsSole(s, a);
        assert Early(s, a, banned);
        RunKeepsPhase(s, schedule, a, banned);
      }
    }
  }

  lemma {:induction false} NoHazardIsSole(s: System, a: Address)
    requires forall i, j, k :: !Hazard(s, i, j, k)
    ensures Sole(s, a, a in s.table)
  {
    var flip := Flip(a, a in s.table);
    if Requested(s, Opposite(flip)) {
      var k :| 0 <= k < |s.threads| && s.threads[k].op == Opposite(flip);
      forall t, u | 0 <= t < u < |s.threads| ensures !(s.threads[t].op == s.threads[u].op == flip) {
        assert !Hazard(s, t, u, k);
      }
    }
  }

  // The schedule that makes them part

  ghost predicate SameAt(s: System, r: System, a: Address) {
    (a in s.table <==> a in r.table) && (a in s.cache <==> a in r.cache)
  }

  /** A call that finds nothing to do at `a`, or is about another address. */
  ghost predicate Passive(s: System, t: nat, a: Address)
    requires t < |s.threads|
  {
    s.threads[t].progress == Called && (s.threads[t].op.address == a ==> s.threads[t].op.Ban? == (a in s.cache))
  }

  /** Runs calls one after the other, each to its end, without any effect on `a`. */
  lemma {:induction false} RunPassive(s: System, calls: set<nat>, a: Address) returns (schedule: seq<nat>)
    requires forall t :: t in calls ==> t < |s.threads| && Passive(s, t, a)
    ensures Schedulable(s, schedule)
    ensures SameAt(s, Run(s, schedule), a)
    ensures forall t :: 0 <= t < |s.threads| ==>
              Run(s, schedule).threads[t] == if t in calls then Thread(s.threads[t].op, Finished) else s.threads[t]
    decreases |calls|
  {
    if calls == {} {
      schedule := [];
    } else {
      var t :| t in calls;
      var s' := Step(Step(Step(s, t), t), t);
      assert s'.threads == s.threads[t := Thread(s.threads[t].op, Finished)] && SameAt(s, s', a);
      RunThree(s, t);
      hide Step;
      var rest := RunPassive(s', calls - {t}, a);
      schedule := [t, t, t] + rest;
      RunConcat(s, [t, t, t], rest);
    }
  }

  /** A call that has something to do at `a` runs to its end. */
  lemma {:induction false} RunActive(s: System, t: nat, a: Address)
    requires t < |s.threads| && s.threads[t].progress == Called
    requires s.threads[t].op.address == a && s.threads[t].op.Ban? != (a in s.cache)
    ensures var r := Run(s, [t, t, t]);
            && r.threads == s.threads[t := Thread(s.threads[t].op, Finished)]
            && ((a in r.table) == (a in r.cache) == s.threads[t].op.Ban?)
  {
    RunThree(s, t);
  }

  lemma {:induction false} RunHalf(s: System, t: nat, a: Address)
    requires t < |s.threads| && s.threads[t].progress == Called
    requires s.threads[t].op.address == a && s.threads[t].op.Ban? != (a in s.cache)
    ensures var r := Run(s, [t, t]);
            && r.threads == s.threads[t := Thread(s.threads[t].op, Stored)]
            && r.cache == s.cache
  {
    RunTwo(s, t);
  }

  lemma {:induction false} RunLast(s: System, t: nat, a: Address)
    requires t < |s.threads| && s.threads[t].progress == Stored && s.threads[t].op.address == a
    ensures var r := Run(s, [t]);
            && r.threads == s.threads[t := Thread(s.threads[t].op, Finished)]
            && r.table == s.table && (a in r.cache <==> s.threads[t].op.Ban?)
  {
    assert Run(s, [t]) == Run(Step(s, t), [t][1..]) && [t][1..] == [];
  }

  /**
   * The first call stands between its writes, the second has completed, the third has not begun,
   * and of the rest only those that would repeat the first are still to come.
   */
  ghost predicate Poised(s: System, i: nat, j: nat, k: nat) {
    && i < |s.threads| && j < |s.threads| && k < |s.threads|
    && s.threads[i].progress == Stored && s.threads[j] == Thread(s.threads[i].op, Finished)
    && s.threads[k] == Thread(Opposite(s.threads[i].op), Called)
    && (s.threads[i].op.address in s.cache) == s.threads[i].op.Ban?
    && forall t :: 0 <= t < |s.threads| && t != i && t != j && t != k ==>
         s.threads[t].progress == if s.threads[t].op == s.threads[i].op then Called else Finished
  }

  /** All calls but `k` and those that repeat `op` are run first: what they do at that address changes nothing. */
  lemma {:induction false} RunBystanders(s: System, op: Operation, k: nat) returns (schedule: seq<nat>)
    requires IsStart(s) && op == Flip(op.address, op.address in s.table)
    ensures Schedulable(s, schedule) && SameAt(s, Run(s, schedule), op.address)
    ensures forall t :: 0 <= t < |s.threads| ==>
              Run(s, schedule).threads[t] == if s.threads[t].op != op && t != k
                                             then Thread(s.threads[t].op, Finished) else s.threads[t]
  {
    hide Run, Step;
    var bystanders := set t | 0 <= t < |s.threads| && s.threads[t].op != op && t != k;
    schedule := RunPassive(s, bystanders, op.address);
  }

  lemma {:induction false} GetPoised(s: System, i: nat, j: nat, k: nat) returns (schedule: seq<nat>)
    requires IsStart(s) && Hazard(s, i, j, k)
    ensures Schedulable(s, schedule) && Poised(Run(s, schedule), i, j, k)
  {
    var op := s.threads[i].op;
    var a := op.address;
    var p := RunBystanders(s, op, k);
    hide Run, Step;
    var s1 := Run(s, p);
    RunHalf(s1, i, a);
    var s2 := Run(s1, [i, i]);
    RunActive(s2, j, a);
    schedule := p + ([i, i] + [j, j, j]);
    RunConcat(s1, [i, i], [j, j, j]);
    RunConcat(s, p, [i, i] + [j, j, j]);
  }

  /** The third call undoes the second, and the first goes on. */
  lemma {:induction false} UndoAndOverwrite(s: System, i: nat, j: nat, k: nat) returns (schedule: seq<nat>)
    requires Poised(s, i, j, k)
    ensures Schedulable(s, schedule)
    ensures var r := Run(s, schedule); AllFinished(r) && r.cache != r.table
  {
    var op := s.threads[i].op;
    var a := op.address;
    var others := set t | 0 <= t < |s.threads| && s.threads[t].op == op && t != i && t != j;
    var p := RunPassive(s, others, a);
    hide Run, Step;
    var s1 := Run(s, p);
    RunActive(s1, k, a);
    var s2 := Run(s1, [k, k, k]);
    RunLast(s2, i, a);
    assert (a in Run(s2, [i]).cache) != (a in Run(s2, [i]).table);
    schedule := p + ([k, k, k] + [i]);
    RunConcat(s1, [k, k, k], [i]);
    RunConcat(s, p, [k, k, k] + [i]);
  }

  lemma {:induction false} HazardMeansDisagreement(s: System, i: nat, j: nat, k: nat) returns (schedule: seq<nat>)
    requires IsStart(s) && Hazard(s, i, j, k)
    ensures !EndsInAgreement(s, schedule)
  {
    hide Run, Hazard, Poised;
    var p := GetPoised(s, i, j, k);
    var q := UndoAndOverwrite(Run(s, p), i, j, k);
    schedule := p + q;
    RunConcat(s, p, q);
  }

  /**
   * Exactly when concurrent calls are safe: every schedule that lets them all finish leaves the
   * cache equal to the table if and only if no address is being changed by two of the calls and
   * changed back by a third.
   */
  lemma {:induction false} AgreementIff(s: System)
    requires IsStart(s)
    ensures (forall schedule :: EndsInAgreement(s, schedule)) <==> (forall i, j, k :: !Hazard(s, i, j, k))
  {
    hide EndsInAgreement, Hazard;
    if forall i, j, k :: !Hazard(s, i, j, k) {
      forall schedule ensures EndsInAgreement(s, schedule) {
        NoHazardMeansAgreement(s, schedule);
      }
    } else {
      var i, j, k :| Hazard(s, i, j, k);
      var _ := HazardMeansDisagreement(s, i, j, k);
    }
  }

  lemma {:induction false} RunConcat(s: System, a: seq<nat>, b: seq<nat>)
    requires Schedulable(s, a) && Schedulable(s, b)
    ensures Run(s, a + b) == Run(Run(s, a), b)
    decreases |a|
  {
    if a == [] {
      assert a + b == b;
    } else {
      assert (a + b)[1..] == a[1..] + b;
      RunConcat(Step(s, a[0]), a[1..], b);
    }
  }

  lemma {:induction false} RunThree(s: System, i: nat)
    requires i < |s.threads|
    ensures Run(s, [i, i, i]) == Step(Step(Step(s, i), i), i)
  {
    RunTwo(Step(s, i), i);
    assert [i, i, i][1..] == [i, i];
  }

  lemma {:induction false} RunTwo(s: System, i: nat)
    requires i < |s.threads|
    ensures Run(s, [i, i]) == Step(Step(s, i), i)
  {
    var t := Step(s, i);
    assert [i, i][1..] == [i] && [i][1..] == [];
    assert Run(t, [i]) == Run(Step(t, i), []);
  }
}
