/**
 Keyed creates do not lose their success: once an insert of the call is committed, its retries
 find the key and replay it. Only a delete can get in the way, also one that takes the key's
 row along, and then the same settings allow it as for unkeyed creates.
 */
module PgKeyedSuccess {
  import opened Base
  import opened PgCreate
  import opened PgScenarios
  import opened PgLostSuccess
  import PgCreateRuns
  import PgNotFound

  /** The call returned one of the errors that say it has stored nothing. */
  predicate IsRefused(call: Call) {
    || call.pc == Returned(Some(AlreadyExists)) || call.pc == Returned(Some(Capacity))
    || call.pc == Returned(Some(NotFound))
  }

  /** A keyed call is refused although an insert of its own was committed. */
  predicate LosesKeyedSuccess(s: System, c: nat) {
    c in s.calls && s.calls[c].key != [] && c in s.landed && IsRefused(s.calls[c])
  }

  // ---------------------------------------------------------------------------
  // What every step other than a delete keeps

  /** A committed call has its key; a refused one has no transaction left that could commit. */
  predicate CallKeeps(s: System, c: nat)
    requires c in s.calls
  {
    s.calls[c].key != [] ==>
      && (c in s.landed ==> s.calls[c].key in s.rows.keys && !IsRefused(s.calls[c]))
      && (IsRefused(s.calls[c]) ==>
          forall x :: x in s.sessions && s.sessions[x].call == c ==> s.sessions[x].phase == Begun)
  }

  predicate SessionKeeps(s: System, x: nat)
    requires x in s.sessions
  {
    s.sessions[x].call in s.calls && s.sessions[x].key == s.calls[s.sessions[x].call].key
  }

  ghost predicate Keeps(s: System) {
    && s.rows.deleted == {}
    && (forall c :: c in s.landed ==> c in s.calls)
    && (forall c :: c in s.calls ==> CallKeeps(s, c))
    && (forall x :: x in s.sessions ==> SessionKeeps(s, x))
  }

  /** Call `c` moves on, or its transaction does, and it is not refused. */
  lemma OrdinaryKeeps(s: System, s': System, c: nat)
    requires Keeps(s) && s'.landed == s.landed && s'.rows == s.rows
    requires c in s'.calls && !IsRefused(s'.calls[c])
    requires c in s.calls ==> s'.calls[c].key == s.calls[c].key
    requires forall d :: d in s'.calls && d != c ==> d in s.calls && s'.calls[d] == s.calls[d]
    requires forall d :: d in s.calls ==> d in s'.calls
    requires forall x :: x in s'.sessions ==>
               || (x in s.sessions && s'.sessions[x] == s.sessions[x])
               || (s'.sessions[x].call == c && s'.sessions[x].key == s'.calls[c].key)
    ensures Keeps(s')
  {
    forall d | d in s'.calls ensures CallKeeps(s', d) {
      assert d in s.calls ==> CallKeeps(s, d);
    }
    forall x | x in s'.sessions ensures SessionKeeps(s', x) {
      assert x in s.sessions ==> SessionKeeps(s, x);
    }
  }

  /** A call arrives, or one that waits goes on to wait or ends with an error from outside. */
  lemma CallChangeKeeps(s: System, c: nat, call: Call)
    requires Keeps(s) && !IsRefused(call) && (c in s.calls ==> call.key == s.calls[c].key)
    ensures Keeps(s.(calls := s.calls[c := call]))
  {
    OrdinaryKeeps(s, s.(calls := s.calls[c := call]), c);
  }

  lemma BeginKeeps(cfg: Config, s: System, c: nat)
    requires Keeps(s) && Enabled(cfg, s, Begin(c))
    ensures Keeps(Apply(cfg, s, Begin(c)))
  {
    OrdinaryKeeps(s, Apply(cfg, s, Begin(c)), c);
  }

  lemma OutsideErrorRefusesNothing(cfg: Config, call: Call, e: Error)
    requires FromDriver(e)
    ensures !IsRefused(AfterError(cfg, call, e)) && AfterError(cfg, call, e).key == call.key
  {
  }

  lemma RollbackKeeps(cfg: Config, s: System, bound: int, c: nat, e: Error)
    requires Invariant(cfg, s, bound) && Keeps(s) && InPhase(s, c) && FromDriver(e)
    ensures Keeps(Abort(cfg, s, c, e))
  {
    OutsideErrorRefusesNothing(cfg, s.calls[c], e);
    OrdinaryKeeps(s, Abort(cfg, s, c, e), c);
  }

  lemma SeverKeeps(cfg: Config, s: System, bound: int, c: nat, e: Error)
    requires Invariant(cfg, s, bound) && Keeps(s) && Enabled(cfg, s, Break(c, e, true))
    ensures Keeps(Apply(cfg, s, Break(c, e, true)))
  {
    assert CallOk(s, c);
    OutsideErrorRefusesNothing(cfg, s.calls[c], e);
    OrdinaryKeeps(s, Apply(cfg, s, Break(c, e, true)), c);
  }

  lemma SetPhaseKeeps(cfg: Config, s: System, bound: int, c: nat, phase: Phase, lock: Option<nat>)
    requires Invariant(cfg, s, bound) && Keeps(s) && InPhase(s, c)
    ensures Keeps(SetPhase(s, c, phase).(lock := lock))
  {
    assert CallOk(s, c);
    OrdinaryKeeps(s, SetPhase(s, c, phase).(lock := lock), c);
  }

  /** A transaction that has looked for the key in vain is refused; it held the lock, so it was the only one. */
  lemma RefusalKeeps(cfg: Config, s: System, bound: int, c: nat, e: Error)
    requires Invariant(cfg, s, bound) && Keeps(s) && InPhase(s, c) && PhaseOf(s, c) != Begun
    requires s.calls[c].key !in s.rows.keys
    ensures Keeps(Abort(cfg, s, c, e))
  {
    var x := s.calls[c].pc.session;
    var s' := Abort(cfg, s, c, e);
    assert CallOk(s, c) && SessionOk(cfg, s, x);
    forall d | d in s'.calls ensures CallKeeps(s', d) {
      assert CallKeeps(s, d);
      forall y | y in s'.sessions && s'.sessions[y].call == c ensures s'.sessions[y].phase == Begun {
        assert SessionOk(cfg, s, y);
      }
    }
    forall y | y in s'.sessions ensures SessionKeeps(s', y) {
      assert SessionKeeps(s, y);
    }
  }

  /** Nothing was deleted, so the user of a key is there. */
  lemma ScanFinds(cfg: Config, s: System, bound: int, c: nat)
    requires Invariant(cfg, s, bound) && s.rows.deleted == {} && Enabled(cfg, s, Scan(c))
    ensures PhaseOf(s, c).id in s.rows.users
  {
    var x := s.calls[c].pc.session;
    assert CallOk(s, c) && SessionOk(cfg, s, x);
    var i :| 0 <= i < |s.rows.created| && s.rows.created[i] == (s.sessions[x].key, PhaseOf(s, c).id);
    assert EntryOk(s.rows, s.rows.created[i]);
  }

  lemma ScanKeeps(cfg: Config, s: System, bound: int, c: nat)
    requires Invariant(cfg, s, bound) && Keeps(s) && Enabled(cfg, s, Scan(c))
    ensures Keeps(Apply(cfg, s, Scan(c)))
  {
    assert CallOk(s, c);
    ScanFinds(cfg, s, bound, c);
    OrdinaryKeeps(s, Apply(cfg, s, Scan(c)), c);
  }

  lemma CountKeeps(cfg: Config, s: System, bound: int, c: nat)
    requires Invariant(cfg, s, bound) && Keeps(s) && Enabled(cfg, s, Count(c))
    ensures Keeps(Apply(cfg, s, Count(c)))
  {
    assert CallOk(s, c) && SessionOk(cfg, s, s.calls[c].pc.session);
    if |s.rows.users| >= cfg.maxUsers {
      RefusalKeeps(cfg, s, bound, c, Capacity);
    } else {
      SetPhaseKeeps(cfg, s, bound, c, Counted, s.lock);
    }
  }

  lemma InsertsKeep(cfg: Config, s: System, bound: int, step: Step)
    requires Invariant(cfg, s, bound) && Keeps(s) && Enabled(cfg, s, step) && (step.InsertUser? || step.InsertKey?)
    ensures Keeps(Apply(cfg, s, step))
  {
    var c := step.call;
    assert CallOk(s, c) && SessionOk(cfg, s, s.calls[c].pc.session);
    if step.InsertKey? {
      SetPhaseKeeps(cfg, s, bound, c, KeyStaged, s.lock);
    } else if s.calls[c].user.id in s.rows.users {
      RefusalKeeps(cfg, s, bound, c, AlreadyExists);
    } else {
      SetPhaseKeeps(cfg, s, bound, c, UserStaged, s.lock);
    }
  }

  lemma LocksKeep(cfg: Config, s: System, bound: int, step: Step)
    requires Invariant(cfg, s, bound) && Keeps(s) && Enabled(cfg, s, step) && (step.Lock? || step.Lookup?)
    ensures Keeps(Apply(cfg, s, step))
  {
    var c := step.call;
    if step.Lock? {
      SetPhaseKeeps(cfg, s, bound, c, Locked, Some(s.calls[c].pc.session));
    } else {
      var key := s.calls[c].key;
      SetPhaseKeeps(cfg, s, bound, c, if key in s.rows.keys then KeyFound(s.rows.keys[key]) else KeyMissing, s.lock);
    }
  }

  lemma CommitKeeps(cfg: Config, s: System, bound: int, c: nat)
    requires Invariant(cfg, s, bound) && Keeps(s) && Enabled(cfg, s, Commit(c))
    ensures Keeps(Apply(cfg, s, Commit(c)))
  {
    var s' := Apply(cfg, s, Commit(c));
    assert CallOk(s, c);
    forall d | d in s'.calls ensures CallKeeps(s', d) {
      assert CallKeeps(s, d);
    }
    forall y | y in s'.sessions ensures SessionKeeps(s', y) {
      assert SessionKeeps(s, y);
    }
  }

  /** What commits late is not of a call that was refused: that had the lock when it was, and this has it now. */
  lemma LateCommitKeeps(cfg: Config, s: System, bound: int, x: nat)
    requires Invariant(cfg, s, bound) && Keeps(s) && Enabled(cfg, s, LateCommit(x))
    ensures Keeps(Publish(s, x))
  {
    var s' := Publish(s, x);
    assert SessionKeeps(s, x);
    forall d | d in s'.calls ensures CallKeeps(s', d) {
      assert CallKeeps(s, d);
    }
    forall y | y in s'.sessions ensures SessionKeeps(s', y) {
      assert SessionKeeps(s, y);
    }
  }

  lemma OutsideKeeps(cfg: Config, s: System, step: Step)
    requires Keeps(s) && Enabled(cfg, s, step) && (step.LateRollback? || step.Update?)
    ensures Keeps(Apply(cfg, s, step))
  {
    var s' := Apply(cfg, s, step);
    forall d | d in s'.calls ensures CallKeeps(s', d) {
      assert CallKeeps(s, d);
    }
    forall y | y in s'.sessions ensures SessionKeeps(s', y) {
      assert SessionKeeps(s, y);
    }
  }

  lemma StartsKeep(cfg: Config, s: System, step: Step)
    requires Keeps(s) && Enabled(cfg, s, step)
    requires step.Arrive? || step.Begin? || step.BeginFails? || step.GiveUp?
    ensures Keeps(Apply(cfg, s, step))
  {
    match step
    case Begin(c) => BeginKeeps(cfg, s, c);
    case Arrive(c, _, _) => CallChangeKeeps(s, c, Apply(cfg, s, step).calls[c]);
    case BeginFails(c, e) => CallChangeKeeps(s, c, AfterError(cfg, s.calls[c], e));
    case GiveUp(c, e) => CallChangeKeeps(s, c, s.calls[c].(pc := Returned(Some(e))));
  }

  lemma StatementKeeps(cfg: Config, s: System, bound: int, step: Step)
    requires Invariant(cfg, s, bound) && Keeps(s) && Enabled(cfg, s, step)
    requires step.Lock? || step.Lookup? || step.Scan? || step.Count? || step.InsertUser? || step.InsertKey?
    ensures Keeps(Apply(cfg, s, step))
  {
    match step
    case Scan(c) => ScanKeeps(cfg, s, bound, c);
    case Count(c) => CountKeeps(cfg, s, bound, c);
    case InsertUser(_) => InsertsKeep(cfg, s, bound, step);
    case InsertKey(_) => InsertsKeep(cfg, s, bound, step);
    case _ => LocksKeep(cfg, s, bound, step);
  }

  lemma EndKeeps(cfg: Config, s: System, bound: int, step: Step)
    requires Invariant(cfg, s, bound) && Keeps(s) && Enabled(cfg, s, step)
    requires step.Commit? || step.Break? || step.LateCommit?
    ensures Keeps(Apply(cfg, s, step))
  {
    match step
    case Commit(c) => CommitKeeps(cfg, s, bound, c);
    case LateCommit(x) => LateCommitKeeps(cfg, s, bound, x);
    case Break(c, e, disconnected) =>
      if disconnected {
        SeverKeeps(cfg, s, bound, c, e);
      } else {
        RollbackKeeps(cfg, s, bound, c, e);
      }
  }

  lemma NextKeepsSuccess(cfg: Config, s: System, bound: int, step: Step)
    requires Invariant(cfg, s, bound) && Keeps(s) && !step.Delete?
    ensures Keeps(Next(cfg, s, step))
  {
    if Enabled(cfg, s, step) {
      if step.Arrive? || step.Begin? || step.BeginFails? || step.GiveUp? {
        StartsKeep(cfg, s, step);
      } else if step.Commit? || step.Break? || step.LateCommit? {
        EndKeeps(cfg, s, bound, step);
      } else if step.LateRollback? || step.Update? {
        OutsideKeeps(cfg, s, step);
      } else {
        StatementKeeps(cfg, s, bound, step);
      }
    }
  }

  lemma {:induction false} ReachKeepsSuccess(cfg: Config, s: System, steps: seq<Step>, k: nat)
    requires Init(s) && k <= |steps| && PgCreateRuns.NoDeletes(steps)
    ensures Keeps(Reach(cfg, s, steps, k))
  {
    if k > 0 {
      ReachKeepsSuccess(cfg, s, steps, k - 1);
      PgCreateRuns.ReachKeeps(cfg, s, steps, k - 1);
      NextKeepsSuccess(cfg, Reach(cfg, s, steps, k - 1), PgCreateRuns.Bound(cfg, s), steps[k - 1]);
    }
  }

  /** Without deletes, a keyed call of which an insert was committed is never refused: whatever fails and
      whenever, ErrAlreadyExists, ErrCapacity and ErrNotFound mean that it has stored nothing. */
  lemma KeyedCreateKeepsItsSuccess(cfg: Config, s: System, steps: seq<Step>, k: nat, c: nat)
    requires Init(s) && k <= |steps| && PgCreateRuns.NoDeletes(steps)
    ensures !LosesKeyedSuccess(Reach(cfg, s, steps, k), c)
  {
    ReachKeepsSuccess(cfg, s, steps, k);
    if c in Reach(cfg, s, steps, k).calls {
      assert CallKeeps(Reach(cfg, s, steps, k), c);
    }
  }

  // ---------------------------------------------------------------------------
  // With deletes

  /** A keyed create has landed behind a lost connection, and its call waits for the next attempt. */
  const LANDED :=
    System(STOCKED.rows, None, map[], 1, map[0 := Call(ANN, KEY, 1, Waiting, None, false)], {0}, {0})

  lemma LandsBehindALoss(cfg: Config)
    requires cfg.maxAttempts >= 2
    ensures var staged := Alone(ArrivedIn(NO_ROWS, 0, ANN, KEY), 0, Waiter(ANN, KEY), KeyStaged);
            Next(cfg, Next(cfg, staged, Break(0, EndOfFile, true)), LateCommit(0)) == LANDED
  {
    var staged := Alone(ArrivedIn(NO_ROWS, 0, ANN, KEY), 0, Waiter(ANN, KEY), KeyStaged);
    var lost := Next(cfg, staged, Break(0, EndOfFile, true));
    assert lost == System(NO_ROWS.rows, Some(0), map[0 := Session(ANN, KEY, KeyStaged, 0, false)], 1,
                          map[0 := Call(ANN, KEY, 1, Waiting, None, false)], {}, {0});
    assert Next(cfg, lost, LateCommit(0)).sessions == map[];
  }

  lemma RunToReady(cfg: Config) returns (steps: seq<Step>)
    requires cfg.maxUsers >= 1
    ensures Final(cfg, NO_ROWS, steps) == Alone(ArrivedIn(NO_ROWS, 0, ANN, KEY), 0, Waiter(ANN, KEY), KeyStaged)
    ensures PgCreateRuns.NoDeletes(steps)
  {
    var locked := RunFromArrival(cfg, NO_ROWS, [], 0, ANN, KEY);
    steps := RunToKeyStaged(cfg, NO_ROWS, locked, ArrivedIn(NO_ROWS, 0, ANN, KEY), 0, Waiter(ANN, KEY));
  }

  lemma RunToLanded(cfg: Config) returns (steps: seq<Step>)
    requires cfg.maxAttempts >= 2 && cfg.maxUsers >= 1
    ensures Final(cfg, NO_ROWS, steps) == LANDED && PgCreateRuns.NoDeletes(steps)
  {
    var ready := RunToReady(cfg);
    LandsBehindALoss(cfg);
    var lost := Extend(cfg, NO_ROWS, ready, Break(0, EndOfFile, true));
    steps := Extend(cfg, NO_ROWS, lost, LateCommit(0));
  }

  lemma NoDeletesCascade(cfg: Config, s: System, steps: seq<Step>)
    requires PgCreateRuns.NoDeletes(steps)
    ensures PgNotFound.Cascading(cfg, s, steps)
  {
  }

  /** The retry finds the key; the user is deleted, and the key's row with it; the retry fails. */
  lemma DeleteGetsInTheWay(cfg: Config) returns (steps: seq<Step>)
    requires cfg.maxAttempts >= 2 && cfg.maxUsers >= 1
    ensures PgNotFound.Cascading(cfg, NO_ROWS, steps) && LosesKeyedSuccess(Final(cfg, NO_ROWS, steps), 0)
  {
    var call := LANDED.calls[0];
    var landed := RunToLanded(cfg);
    var locked := RunToLocked(cfg, NO_ROWS, landed, 0);
    LooksUp(cfg, LANDED, 0, call);
    var found := Extend(cfg, NO_ROWS, locked, Lookup(0));
    NoDeletesCascade(cfg, NO_ROWS, found);
    DeletesAnn(cfg, Final(cfg, NO_ROWS, found), {KEY});
    PgNotFound.CascadeExtends(cfg, NO_ROWS, found, Delete(ANN.id, {KEY}));
    var deleted := Extend(cfg, NO_ROWS, found, Delete(ANN.id, {KEY}));
    var q := LANDED.(rows := WithoutAnn({KEY}));
    assert Final(cfg, NO_ROWS, deleted) == Alone(q, 0, call, KeyFound(ANN.id));
    PgNotFound.ScanFails(cfg, q, 0, call, ANN.id);
    PgNotFound.CascadeExtends(cfg, NO_ROWS, deleted, Scan(0));
    steps := Extend(cfg, NO_ROWS, deleted, Scan(0));
  }

  ghost predicate SomeRunLosesKeyed(cfg: Config, s: System, steps: seq<Step>, c: nat) {
    Init(s) && PgNotFound.Cascading(cfg, s, steps) && LosesKeyedSuccess(Final(cfg, s, steps), c)
  }

  /** Where deletes cascade, some run loses the success of a keyed create, if and only if the settings allow a
      second attempt and a first user. */
  lemma KeyedCreateLosesItsSuccessIff(cfg: Config)
    ensures (exists s, steps, c: nat :: SomeRunLosesKeyed(cfg, s, steps, c))
            <==> cfg.maxAttempts >= 2 && cfg.maxUsers >= 1
  {
    forall s, steps, c: nat | SomeRunLosesKeyed(cfg, s, steps, c) ensures cfg.maxAttempts >= 2 && cfg.maxUsers >= 1 {
      ReachIsKept(cfg, s, steps, |steps|);
      assert CallKept(cfg, Final(cfg, s, steps), c);
    }
    if cfg.maxAttempts >= 2 && cfg.maxUsers >= 1 {
      var steps := DeleteGetsInTheWay(cfg);
      assert SomeRunLosesKeyed(cfg, NO_ROWS, steps, 0);
    }
  }
}
