/**
 A create that is done but reported as refused. A commit can take effect after its caller has
 seen the connection fail; the retry of an unkeyed create then meets its own row. This module
 says which runs do that to unkeyed creates, and which settings allow them.
 */
module PgLostSuccess {
  import opened Base
  import opened PgCreate
  import opened PgScenarios
  import PgCreateRuns

  /** An unkeyed call is told ErrAlreadyExists or ErrCapacity although an insert of its own was committed. */
  predicate LosesItsSuccess(s: System, c: nat) {
    && c in s.calls && s.calls[c].key == [] && c in s.landed
    && (s.calls[c].pc == Returned(Some(AlreadyExists)) || s.calls[c].pc == Returned(Some(Capacity)))
  }

  // ---------------------------------------------------------------------------
  // What every step keeps

  /** The call is past its first attempt, or has ended with an error from outside. */
  predicate Retrying(call: Call) {
    call.attempt >= 1 || (call.pc.Returned? && call.pc.err.Some? && FromDriver(call.pc.err.value))
  }

  predicate CallKept(cfg: Config, s: System, c: nat)
    requires c in s.calls
  {
    && (s.calls[c].attempt >= 1 ==> s.calls[c].attempt < cfg.maxAttempts)
    && (c in s.severed ==> Retrying(s.calls[c]))
    && (c in s.landed ==> cfg.maxUsers >= 1 && (c in s.severed || s.calls[c].pc == Returned(None)))
  }

  predicate SessionKept(s: System, x: nat)
    requires x in s.sessions
  {
    && s.sessions[x].call in s.calls
    && (!s.sessions[x].connected && s.sessions[x].Ready() ==> s.sessions[x].call in s.severed)
  }

  ghost predicate Kept(cfg: Config, s: System) {
    && (forall c :: c in s.landed ==> c in s.calls)
    && (forall c :: c in s.severed ==> c in s.calls)
    && (forall c :: c in s.calls ==> CallKept(cfg, s, c))
    && (forall x :: x in s.sessions ==> SessionKept(s, x))
  }

  /** A call's state changes, or a transaction's, and nothing is committed or severed. */
  lemma OrdinaryKeeps(cfg: Config, s: System, s': System, c: nat)
    requires Kept(cfg, s) && c in s'.calls && s'.landed == s.landed && s'.severed == s.severed
    requires forall d :: d in s.calls ==> d in s'.calls && (d != c ==> s'.calls[d] == s.calls[d])
    requires forall d :: d in s'.calls ==> d in s.calls || d == c
    requires CallKept(cfg, s', c)
    requires forall x :: x in s'.sessions ==>
               && s'.sessions[x].call in s'.calls
               && (!s'.sessions[x].connected ==> x in s.sessions && s.sessions[x] == s'.sessions[x])
    ensures Kept(cfg, s')
  {
    forall d | d in s'.calls ensures CallKept(cfg, s', d) {
      assert d != c ==> CallKept(cfg, s, d);
    }
    forall x | x in s'.sessions ensures SessionKept(s', x) {
      assert x in s.sessions ==> SessionKept(s, x);
    }
  }

  /** A call arrives, or one that waits goes on to wait or ends with an error. */
  lemma CallChangeKeeps(cfg: Config, s: System, c: nat, call: Call)
    requires Kept(cfg, s) && (c in s.calls ==> s.calls[c].pc == Waiting && call.attempt >= s.calls[c].attempt)
    requires call.attempt >= 1 ==> call.attempt < cfg.maxAttempts
    ensures Kept(cfg, s.(calls := s.calls[c := call]))
  {
    var s' := s.(calls := s.calls[c := call]);
    forall d | d in s'.calls ensures CallKept(cfg, s', d) {
      assert d in s.calls ==> CallKept(cfg, s, d);
    }
    forall x | x in s'.sessions ensures SessionKept(s', x) {
      assert SessionKept(s, x);
    }
  }

  lemma BeginKeeps(cfg: Config, s: System, c: nat)
    requires Kept(cfg, s) && Enabled(cfg, s, Begin(c))
    ensures Kept(cfg, Apply(cfg, s, Begin(c)))
  {
    var s' := Apply(cfg, s, Begin(c));
    forall d | d in s'.calls ensures CallKept(cfg, s', d) {
      assert CallKept(cfg, s, d);
    }
    forall x | x in s'.sessions ensures SessionKept(s', x) {
      assert x != s.nextSession ==> SessionKept(s, x);
    }
  }

  lemma StartsKeep(cfg: Config, s: System, step: Step)
    requires Kept(cfg, s) && Enabled(cfg, s, step) && (step.Arrive? || step.BeginFails? || step.GiveUp?)
    ensures Kept(cfg, Apply(cfg, s, step))
  {
    var c := step.call;
    assert c in s.calls ==> CallKept(cfg, s, c);
    match step
    case Arrive(_, _, _) => CallChangeKeeps(cfg, s, c, Apply(cfg, s, step).calls[c]);
    case BeginFails(_, e) => CallChangeKeeps(cfg, s, c, AfterError(cfg, s.calls[c], e));
    case GiveUp(_, e) => CallChangeKeeps(cfg, s, c, s.calls[c].(pc := Returned(Some(e))));
  }

  lemma AbortKeeps(cfg: Config, s: System, bound: int, c: nat, e: Error)
    requires Invariant(cfg, s, bound) && Kept(cfg, s) && InPhase(s, c)
    ensures Kept(cfg, Abort(cfg, s, c, e))
  {
    assert CallKept(cfg, s, c) && CallOk(s, c);
    assert forall x :: x in s.sessions ==> SessionKept(s, x);
    OrdinaryKeeps(cfg, s, Abort(cfg, s, c, e), c);
  }

  lemma SetPhaseKeeps(cfg: Config, s: System, bound: int, c: nat, phase: Phase, lock: Option<nat>)
    requires Invariant(cfg, s, bound) && Kept(cfg, s) && InPhase(s, c)
    ensures Kept(cfg, SetPhase(s, c, phase).(lock := lock))
  {
    assert CallKept(cfg, s, c) && CallOk(s, c);
    assert forall x :: x in s.sessions ==> SessionKept(s, x);
    OrdinaryKeeps(cfg, s, SetPhase(s, c, phase).(lock := lock), c);
  }

  lemma ScanKeeps(cfg: Config, s: System, bound: int, c: nat)
    requires Invariant(cfg, s, bound) && Kept(cfg, s) && Enabled(cfg, s, Scan(c)) && PhaseOf(s, c).id in s.rows.users
    ensures Kept(cfg, Apply(cfg, s, Scan(c)))
  {
    assert CallKept(cfg, s, c) && CallOk(s, c);
    assert forall x :: x in s.sessions ==> SessionKept(s, x);
    OrdinaryKeeps(cfg, s, Apply(cfg, s, Scan(c)), c);
  }

  lemma StatementKeeps(cfg: Config, s: System, bound: int, step: Step)
    requires Invariant(cfg, s, bound) && Kept(cfg, s) && Enabled(cfg, s, step)
    requires step.Lock? || step.Lookup? || step.Scan? || step.Count? || step.InsertUser? || step.InsertKey?
    ensures Kept(cfg, Apply(cfg, s, step))
  {
    var c := step.call;
    match step
    case Lock(_) => SetPhaseKeeps(cfg, s, bound, c, Locked, Some(s.calls[c].pc.session));
    case Lookup(_) =>
      var key := s.calls[c].key;
      SetPhaseKeeps(cfg, s, bound, c, if key in s.rows.keys then KeyFound(s.rows.keys[key]) else KeyMissing, s.lock);
    case Scan(_) =>
      if PhaseOf(s, c).id in s.rows.users {
        ScanKeeps(cfg, s, bound, c);
      } else {
        AbortKeeps(cfg, s, bound, c, NotFound);
      }
    case Count(_) =>
      if |s.rows.users| >= cfg.maxUsers {
        AbortKeeps(cfg, s, bound, c, Capacity);
      } else {
        SetPhaseKeeps(cfg, s, bound, c, Counted, s.lock);
      }
    case InsertUser(_) =>
      if s.calls[c].user.id in s.rows.users {
        AbortKeeps(cfg, s, bound, c, AlreadyExists);
      } else {
        SetPhaseKeeps(cfg, s, bound, c, UserStaged, s.lock);
      }
    case InsertKey(_) =>
      if s.calls[c].key in s.rows.keys {
        AbortKeeps(cfg, s, bound, c, Wrapped(Postgres("23505")));
      } else {
        SetPhaseKeeps(cfg, s, bound, c, KeyStaged, s.lock);
      }
  }

  lemma SeverKeeps(cfg: Config, s: System, bound: int, c: nat, e: Error)
    requires Invariant(cfg, s, bound) && Kept(cfg, s) && Enabled(cfg, s, Break(c, e, true))
    ensures Kept(cfg, Apply(cfg, s, Break(c, e, true)))
  {
    var s' := Apply(cfg, s, Break(c, e, true));
    assert CallOk(s, c);
    forall d | d in s'.calls ensures CallKept(cfg, s', d) {
      assert CallKept(cfg, s, d);
    }
    forall x | x in s'.sessions ensures SessionKept(s', x) {
      assert SessionKept(s, x);
    }
  }

  /** A call that commits returns nil. */
  lemma CommitKeeps(cfg: Config, s: System, bound: int, c: nat)
    requires Invariant(cfg, s, bound) && Kept(cfg, s) && Enabled(cfg, s, Commit(c))
    ensures Kept(cfg, Apply(cfg, s, Commit(c)))
  {
    var s' := Apply(cfg, s, Commit(c));
    assert CallOk(s, c) && SessionOk(cfg, s, s.calls[c].pc.session);
    forall d | d in s'.calls ensures CallKept(cfg, s', d) {
      assert CallKept(cfg, s, d);
    }
    forall y | y in s'.sessions ensures SessionKept(s', y) {
      assert SessionKept(s, y);
    }
  }

  /** What commits late was severed. */
  lemma LateCommitKeeps(cfg: Config, s: System, bound: int, x: nat)
    requires Invariant(cfg, s, bound) && Kept(cfg, s) && Enabled(cfg, s, LateCommit(x))
    ensures Kept(cfg, Publish(s, x))
  {
    var s' := Publish(s, x);
    assert SessionKept(s, x) && SessionOk(cfg, s, x);
    forall d | d in s'.calls ensures CallKept(cfg, s', d) {
      assert CallKept(cfg, s, d);
    }
    forall y | y in s'.sessions ensures SessionKept(s', y) {
      assert SessionKept(s, y);
    }
  }

  lemma OutsideKeeps(cfg: Config, s: System, bound: int, step: Step)
    requires Invariant(cfg, s, bound) && Kept(cfg, s) && Enabled(cfg, s, step)
    requires step.LateRollback? || step.Delete? || step.Update?
    ensures Kept(cfg, Apply(cfg, s, step))
  {
    var s' := Apply(cfg, s, step);
    forall d | d in s'.calls ensures CallKept(cfg, s', d) {
      assert CallKept(cfg, s, d);
    }
    forall y | y in s'.sessions ensures SessionKept(s', y) {
      assert SessionKept(s, y);
    }
  }

  lemma NextKeepsHistory(cfg: Config, s: System, bound: int, step: Step)
    requires Invariant(cfg, s, bound) && Kept(cfg, s)
    ensures Kept(cfg, Next(cfg, s, step))
  {
    if Enabled(cfg, s, step) {
      match step
      case Commit(c) => CommitKeeps(cfg, s, bound, c);
      case LateCommit(x) => LateCommitKeeps(cfg, s, bound, x);
      case Break(c, e, disconnected) =>
        if disconnected {
          SeverKeeps(cfg, s, bound, c, e);
        } else {
          AbortKeeps(cfg, s, bound, c, e);
        }
      case Arrive(_, _, _) => StartsKeep(cfg, s, step);
      case Begin(c) => BeginKeeps(cfg, s, c);
      case BeginFails(_, _) => StartsKeep(cfg, s, step);
      case GiveUp(_, _) => StartsKeep(cfg, s, step);
      case LateRollback(_) => OutsideKeeps(cfg, s, bound, step);
      case Delete(_, _) => OutsideKeeps(cfg, s, bound, step);
      case Update(_) => OutsideKeeps(cfg, s, bound, step);
      case _ => StatementKeeps(cfg, s, bound, step);
    }
  }

  lemma {:induction false} ReachIsKept(cfg: Config, s: System, steps: seq<Step>, k: nat)
    requires Init(s) && k <= |steps|
    ensures Kept(cfg, Reach(cfg, s, steps, k))
  {
    if k > 0 {
      ReachIsKept(cfg, s, steps, k - 1);
      PgCreateRuns.ReachKeeps(cfg, s, steps, k - 1);
      NextKeepsHistory(cfg, Reach(cfg, s, steps, k - 1), PgCreateRuns.Bound(cfg, s), steps[k - 1]);
    }
  }

  // ---------------------------------------------------------------------------
  // Such a run has lost a connection at the wrong moment

  /** At step `j` call `c` loses the connection of a transaction that is ready to commit. */
  predicate SeveredAt(cfg: Config, s: System, steps: seq<Step>, j: nat, c: nat)
    requires j < |steps|
  {
    var t := Reach(cfg, s, steps, j);
    && steps[j].Break? && steps[j].call == c && steps[j].disconnected && Enabled(cfg, t, steps[j])
    && t.sessions[t.calls[c].pc.session].Ready()
  }

  lemma NextSevers(cfg: Config, s: System, step: Step, c: nat)
    requires c in Next(cfg, s, step).severed && c !in s.severed
    ensures step.Break? && step.call == c && step.disconnected && Enabled(cfg, s, step)
    ensures s.sessions[s.calls[c].pc.session].Ready()
  {
  }

  lemma {:induction false} SeveredOnce(cfg: Config, s: System, steps: seq<Step>, k: nat, c: nat) returns (j: nat)
    requires Init(s) && k <= |steps| && c in Reach(cfg, s, steps, k).severed
    ensures j < k && SeveredAt(cfg, s, steps, j, c)
  {
    if c in Reach(cfg, s, steps, k - 1).severed {
      j := SeveredOnce(cfg, s, steps, k - 1, c);
    } else {
      NextSevers(cfg, Reach(cfg, s, steps, k - 1), steps[k - 1], c);
      j := k - 1;
    }
  }

  /** Behind every success that is reported as a refusal there is an earlier attempt of the same call that
      lost its connection when it was ready to commit. */
  lemma LostSuccessWasSevered(cfg: Config, s: System, steps: seq<Step>, k: nat, c: nat) returns (j: nat)
    requires Init(s) && k <= |steps| && LosesItsSuccess(Reach(cfg, s, steps, k), c)
    ensures j < k && SeveredAt(cfg, s, steps, j, c)
    ensures cfg.maxAttempts >= 2 && cfg.maxUsers >= 1
  {
    ReachIsKept(cfg, s, steps, k);
    assert CallKept(cfg, Reach(cfg, s, steps, k), c);
    j := SeveredOnce(cfg, s, steps, k, c);
  }

  // ---------------------------------------------------------------------------
  // And it does happen

  const NO_ROWS := System(Rows(map[], map[], [], {}, {}), None, map[], 0, map[], {}, {})

  function Arrived(): System {
    ArrivedIn(NO_ROWS, 0, ANN, [])
  }

  function AfterLoss(): System {
    System(Rows(map[ANN.id := ANN], map[], [([], ANN.id)], {}, {}), None, map[], 1,
           map[0 := Call(ANN, [], 1, Waiting, None, false)], {0}, {0})
  }

  /** The connection is lost at the commit, which takes effect all the same. */
  lemma CommitsBehindALoss(cfg: Config)
    requires cfg.maxAttempts >= 2
    ensures var staged := Alone(Arrived(), 0, Arrived().calls[0], UserStaged);
            Next(cfg, Next(cfg, staged, Break(0, EndOfFile, true)), LateCommit(0)) == AfterLoss()
  {
    var staged := Alone(Arrived(), 0, Arrived().calls[0], UserStaged);
    var lost := Next(cfg, staged, Break(0, EndOfFile, true));
    assert lost == System(NO_ROWS.rows, Some(0), map[0 := Session(ANN, [], UserStaged, 0, false)], 1,
                          map[0 := Call(ANN, [], 1, Waiting, None, false)], {}, {0});
    assert Next(cfg, lost, LateCommit(0)).sessions == map[];
  }

  lemma FirstAttempt(cfg: Config) returns (steps: seq<Step>)
    requires cfg.maxAttempts >= 2 && cfg.maxUsers >= 1
    ensures Final(cfg, NO_ROWS, steps) == AfterLoss()
  {
    steps := RunFromArrival(cfg, NO_ROWS, [], 0, ANN, []);
    steps := RunToStaged(cfg, NO_ROWS, steps, Arrived(), 0, Arrived().calls[0]);
    CommitsBehindALoss(cfg);
    steps := Extend(cfg, NO_ROWS, steps, Break(0, EndOfFile, true));
    steps := Extend(cfg, NO_ROWS, steps, LateCommit(0));
  }

  /** The retry finds its own row in the way. */
  lemma RetryIsRefused(cfg: Config) returns (steps: seq<Step>)
    requires cfg.maxAttempts >= 2 && cfg.maxUsers >= 1
    ensures LosesItsSuccess(Final(cfg, NO_ROWS, steps), 0)
  {
    var q := AfterLoss();
    steps := FirstAttempt(cfg);
    steps := RunToLocked(cfg, NO_ROWS, steps, 0);
    assert |q.rows.users.Keys| == 1;
    if cfg.maxUsers > 1 {
      CountsRoom(cfg, q, 0, q.calls[0]);
      steps := Extend(cfg, NO_ROWS, steps, Count(0));
      InsertRefuses(cfg, q, 0, q.calls[0]);
      steps := Extend(cfg, NO_ROWS, steps, InsertUser(0));
    } else {
      CountRefuses(cfg, q, 0, q.calls[0]);
      steps := Extend(cfg, NO_ROWS, steps, Count(0));
    }
  }

  ghost predicate SomeRunLoses(cfg: Config, s: System, steps: seq<Step>, c: nat) {
    Init(s) && LosesItsSuccess(Final(cfg, s, steps), c)
  }

  /** ErrAlreadyExists or ErrCapacity from Create means that this call has stored nothing, in every run, unless
      the settings allow a second attempt and a first user: then some run ends otherwise. */
  lemma UnkeyedCreateLosesItsSuccessIff(cfg: Config)
    ensures (exists s, steps, c: nat :: SomeRunLoses(cfg, s, steps, c)) <==> cfg.maxAttempts >= 2 && cfg.maxUsers >= 1
  {
    forall s, steps, c: nat | SomeRunLoses(cfg, s, steps, c) ensures cfg.maxAttempts >= 2 && cfg.maxUsers >= 1 {
      var j := LostSuccessWasSevered(cfg, s, steps, |steps|, c);
    }
    if cfg.maxAttempts >= 2 && cfg.maxUsers >= 1 {
      var steps := RetryIsRefused(cfg);
      assert SomeRunLoses(cfg, NO_ROWS, steps, 0);
    }
  }
}
