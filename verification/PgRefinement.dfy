/**
 Concurrent creates against atomic ones. The committed rows are read as the state of an
 in-memory repository, and every call that is answered has a moment, between its arrival and
 its return, at which that repository's create would have given the same answer.
 */
module PgRefinement {
  import opened Base
  import opened PgCreate
  import PgCreateRuns
  import Memory
  import MemoryRuns

  /** The committed rows as an open in-memory repository. */
  function AsMemory(r: Rows): Memory.State {
    Memory.State.State(r.users, r.keys, false)
  }

  function AtomicCreate(cfg: Config, user: User, key: Str): Memory.Op {
    Memory.Op.CreateKeyed(Live, Some(user), cfg.maxUsers, key)
  }

  function AtomicReply(cfg: Config, r: Rows, user: User, key: Str): Memory.Reply {
    MemoryRuns.KeyedReply(AsMemory(r), AtomicCreate(cfg, user, key))
  }

  /** A commit of inserts, late or not, is one atomic create. */
  lemma CommitIsAtomic(cfg: Config, s: System, bound: int, x: nat)
    requires Invariant(cfg, s, bound) && x in s.sessions && s.sessions[x].Ready() && !s.sessions[x].phase.Replaying?
    ensures var t := s.sessions[x];
            && AsMemory(Publish(s, x).rows) == Memory.Effect(AsMemory(s.rows), AtomicCreate(cfg, t.user, t.key))
            && AtomicReply(cfg, s.rows, t.user, t.key) == Memory.Stored(t.user, false)
  {
    assert SessionOk(cfg, s, x);
  }

  /** Reading the user of a recorded key is an atomic replay, if that user is still there. */
  lemma ScanIsAtomic(cfg: Config, s: System, bound: int, c: nat)
    requires Invariant(cfg, s, bound) && Enabled(cfg, s, Scan(c))
    requires PhaseOf(s, c).id in s.rows.users
    ensures var call := Apply(cfg, s, Scan(c)).calls[c];
            && call.stored.Some?
            && AtomicReply(cfg, s.rows, call.user, call.key) == Memory.Stored(call.stored.value, true)
            && Memory.Effect(AsMemory(s.rows), AtomicCreate(cfg, call.user, call.key)) == AsMemory(s.rows)
  {
    assert CallOk(s, c) && SessionOk(cfg, s, s.calls[c].pc.session);
  }

  /** The error with which a step makes its call return. */
  function Outcome(cfg: Config, s: System, step: Step): Option<Error>
    requires Enabled(cfg, s, step) && (step.Count? || step.InsertUser? || step.Scan?)
  {
    var s' := Apply(cfg, s, step);
    if step.call in s'.calls && s'.calls[step.call].pc.Returned? then s'.calls[step.call].pc.err else None
  }

  /** A refusal for want of room is the atomic create's refusal at the count. */
  lemma CountRefusalIsAtomic(cfg: Config, s: System, bound: int, c: nat)
    requires Invariant(cfg, s, bound) && Enabled(cfg, s, Count(c)) && Outcome(cfg, s, Count(c)) != None
    ensures Outcome(cfg, s, Count(c)) == Some(Capacity)
    ensures AtomicReply(cfg, s.rows, s.calls[c].user, s.calls[c].key) == Memory.Failed(Capacity)
  {
    assert CallOk(s, c) && SessionOk(cfg, s, s.calls[c].pc.session);
  }

  /** A refusal of a taken id is the atomic create's refusal at the insert. */
  lemma InsertRefusalIsAtomic(cfg: Config, s: System, bound: int, c: nat)
    requires Invariant(cfg, s, bound) && Enabled(cfg, s, InsertUser(c)) && Outcome(cfg, s, InsertUser(c)) != None
    ensures Outcome(cfg, s, InsertUser(c)) == Some(AlreadyExists)
    ensures AtomicReply(cfg, s.rows, s.calls[c].user, s.calls[c].key) == Memory.Failed(AlreadyExists)
  {
    assert CallOk(s, c) && SessionOk(cfg, s, s.calls[c].pc.session);
  }

  // ---------------------------------------------------------------------------
  // The replies over whole runs

  /** The call has its answer: it returned nil or was refused, or it has read the user it will replay. */
  predicate Settled(s: System, c: nat) {
    && c in s.calls
    && (Refused(s.calls[c]) || (s.calls[c].stored.Some? && (s.calls[c].pc == Returned(None) || Replays(s, c))))
  }

  predicate Refused(call: Call) {
    call.pc == Returned(Some(Capacity)) || call.pc == Returned(Some(AlreadyExists))
  }

  predicate Replays(s: System, c: nat) {
    InPhase(s, c) && PhaseOf(s, c).Replaying?
  }

  /** That answer, as the in-memory repository would put it. */
  function AnswerOf(call: Call): Memory.Reply
    requires Refused(call) || call.stored.Some?
  {
    if Refused(call) then Memory.Failed(call.pc.err.value) else Memory.Stored(call.stored.value, call.replayed)
  }

  /** Call `c` was under way in `s`, where an atomic create would have given the answer of `call`. */
  predicate AnsweredAt(cfg: Config, s: System, c: nat, call: Call)
    requires Refused(call) || call.stored.Some?
  {
    && c in s.calls && !s.calls[c].pc.Returned?
    && AtomicReply(cfg, s.rows, call.user, call.key) == AnswerOf(call)
  }

  /** The same call with the same answer. */
  predicate SameAnswer(a: Call, b: Call)
    requires (Refused(a) || a.stored.Some?) && (Refused(b) || b.stored.Some?)
  {
    a.user == b.user && a.key == b.key && AnswerOf(a) == AnswerOf(b)
  }

  /** The call a step belongs to. */
  function Caller(step: Step): Option<nat> {
    match step
    case LateCommit(_) => None
    case LateRollback(_) => None
    case Delete(_, _) => None
    case Update(_) => None
    case _ => Some(step.call)
  }

  /** Call `c` and its transaction are the same in both. */
  predicate Untouched(s: System, s': System, c: nat)
    requires c in s.calls
  {
    && c in s'.calls && s'.calls[c] == s.calls[c]
    && (s.calls[c].pc.Running? ==>
        && s.calls[c].pc.session in s.sessions && s.calls[c].pc.session in s'.sessions
        && s'.sessions[s.calls[c].pc.session] == s.sessions[s.calls[c].pc.session])
  }

  /** Nothing but call `d` and session `x` has changed. */
  predicate Confined(s: System, s': System, d: nat, x: nat) {
    && (forall c :: c in s.calls && c != d ==> c in s'.calls && s'.calls[c] == s.calls[c])
    && (forall y :: y in s.sessions && y != x ==> y in s'.sessions && s'.sessions[y] == s.sessions[y])
  }

  lemma StatementIsConfined(cfg: Config, s: System, step: Step)
    requires Enabled(cfg, s, step)
    requires step.Lock? || step.Lookup? || step.Scan? || step.Count? || step.InsertUser? || step.InsertKey?
    ensures Confined(s, Apply(cfg, s, step), step.call, s.calls[step.call].pc.session)
  {
    match step
    case Lock(_) =>
    case Lookup(_) =>
    case Scan(_) =>
    case Count(_) =>
    case InsertUser(_) =>
    case InsertKey(_) =>
  }

  lemma EndIsConfined(cfg: Config, s: System, step: Step)
    requires Enabled(cfg, s, step) && (step.Commit? || step.Break?)
    ensures Confined(s, Apply(cfg, s, step), step.call, s.calls[step.call].pc.session)
  {
  }

  /** A transaction of `d` moves on; the calls beside it do not notice. */
  lemma TransactionLeavesOthers(cfg: Config, s: System, bound: int, step: Step, c: nat)
    requires Invariant(cfg, s, bound) && Enabled(cfg, s, step) && c in s.calls && Caller(step) != Some(c)
    requires step.Lock? || step.Lookup? || step.Scan? || step.Count? || step.InsertUser? || step.InsertKey?
             || step.Commit? || step.Break?
    ensures Untouched(s, Apply(cfg, s, step), c)
  {
    assert CallOk(s, c) && CallOk(s, step.call);
    if step.Commit? || step.Break? {
      EndIsConfined(cfg, s, step);
    } else {
      StatementIsConfined(cfg, s, step);
    }
  }

  /** A transaction without a client ends; no call notices. */
  lemma OrphanEnds(cfg: Config, s: System, bound: int, x: nat, c: nat)
    requires Invariant(cfg, s, bound) && c in s.calls && x in s.sessions && !s.sessions[x].connected
    ensures Untouched(s, EndSession(s, x), c) && Untouched(s, Publish(s, x), c)
  {
    assert CallOk(s, c);
  }

  lemma ElsewhereLeavesOthers(cfg: Config, s: System, bound: int, step: Step, c: nat)
    requires Invariant(cfg, s, bound) && Enabled(cfg, s, step) && c in s.calls && Caller(step) != Some(c)
    requires step.Arrive? || step.Begin? || step.BeginFails? || step.GiveUp? || step.Delete? || step.Update?
    ensures Untouched(s, Apply(cfg, s, step), c)
  {
    assert CallOk(s, c);
    assert s.nextSession in s.sessions ==> SessionOk(cfg, s, s.nextSession);
  }

  lemma StepLeavesOthers(cfg: Config, s: System, bound: int, step: Step, c: nat)
    requires Invariant(cfg, s, bound) && Enabled(cfg, s, step) && c in s.calls && Caller(step) != Some(c)
    ensures Untouched(s, Apply(cfg, s, step), c)
  {
    if step.LateCommit? || step.LateRollback? {
      OrphanEnds(cfg, s, bound, step.session, c);
    } else if step.Arrive? || step.Begin? || step.BeginFails? || step.GiveUp? || step.Delete? || step.Update? {
      ElsewhereLeavesOthers(cfg, s, bound, step, c);
    } else {
      TransactionLeavesOthers(cfg, s, bound, step, c);
    }
  }

  /** Only a refusal, the scan of a replay and the commit give a call its answer. */
  lemma OwnStepUnsettles(cfg: Config, s: System, step: Step, c: nat)
    requires Enabled(cfg, s, step) && Caller(step) == Some(c)
    requires !step.Count? && !step.InsertUser? && !step.Scan? && !step.Commit?
    ensures !Settled(Apply(cfg, s, step), c)
  {
    match step
    case Arrive(_, _, _) =>
    case Begin(_) =>
    case BeginFails(_, _) =>
    case GiveUp(_, _) =>
    case Break(_, _, _) =>
    case _ =>
  }

  lemma CountSettles(cfg: Config, s: System, bound: int, c: nat)
    requires Invariant(cfg, s, bound) && Enabled(cfg, s, Count(c)) && Settled(Apply(cfg, s, Count(c)), c)
    ensures AnsweredAt(cfg, s, c, Apply(cfg, s, Count(c)).calls[c])
  {
    CountRefusalIsAtomic(cfg, s, bound, c);
  }

  lemma InsertSettles(cfg: Config, s: System, bound: int, c: nat)
    requires Invariant(cfg, s, bound) && Enabled(cfg, s, InsertUser(c)) && Settled(Apply(cfg, s, InsertUser(c)), c)
    ensures AnsweredAt(cfg, s, c, Apply(cfg, s, InsertUser(c)).calls[c])
  {
    InsertRefusalIsAtomic(cfg, s, bound, c);
  }

  lemma ScanSettles(cfg: Config, s: System, bound: int, c: nat)
    requires Invariant(cfg, s, bound) && Enabled(cfg, s, Scan(c)) && Settled(Apply(cfg, s, Scan(c)), c)
    ensures AnsweredAt(cfg, s, c, Apply(cfg, s, Scan(c)).calls[c])
  {
    if PhaseOf(s, c).id in s.rows.users {
      ScanIsAtomic(cfg, s, bound, c);
    }
  }

  lemma CommitSettles(cfg: Config, s: System, bound: int, c: nat)
    requires Invariant(cfg, s, bound) && Enabled(cfg, s, Commit(c))
    ensures var call := Apply(cfg, s, Commit(c)).calls[c];
            && call.stored.Some? && !Refused(call)
            && ((Settled(s, c) && SameAnswer(s.calls[c], call)) || AnsweredAt(cfg, s, c, call))
  {
    var x := s.calls[c].pc.session;
    assert CallOk(s, c);
    if !s.sessions[x].phase.Replaying? {
      CommitIsAtomic(cfg, s, bound, x);
    }
  }

  lemma NextSettles(cfg: Config, s: System, bound: int, step: Step, c: nat)
    requires Invariant(cfg, s, bound) && Enabled(cfg, s, step) && Settled(Apply(cfg, s, step), c)
    ensures var call := Apply(cfg, s, step).calls[c];
            (Settled(s, c) && SameAnswer(s.calls[c], call)) || AnsweredAt(cfg, s, c, call)
  {
    if Caller(step) != Some(c) {
      if c in s.calls {
        StepLeavesOthers(cfg, s, bound, step, c);
      } else {
        NoAnswerFromNowhere(cfg, s, step, c);
      }
    } else if step.Count? {
      CountSettles(cfg, s, bound, c);
    } else if step.InsertUser? {
      InsertSettles(cfg, s, bound, c);
    } else if step.Scan? {
      ScanSettles(cfg, s, bound, c);
    } else if step.Commit? {
      CommitSettles(cfg, s, bound, c);
    } else {
      OwnStepUnsettles(cfg, s, step, c);
    }
  }

  lemma NoAnswerFromNowhere(cfg: Config, s: System, step: Step, c: nat)
    requires Enabled(cfg, s, step) && c !in s.calls && Caller(step) != Some(c)
    ensures c !in Apply(cfg, s, step).calls
  {
    match step
    case Break(_, _, _) =>
    case Commit(_) =>
    case LateCommit(_) =>
    case LateRollback(_) =>
    case _ =>
  }

  lemma ReachSettles(cfg: Config, s: System, steps: seq<Step>, k: nat, c: nat)
    requires Init(s) && k < |steps| && Settled(Reach(cfg, s, steps, k + 1), c)
    ensures var t, call := Reach(cfg, s, steps, k), Reach(cfg, s, steps, k + 1).calls[c];
            (Settled(t, c) && SameAnswer(t.calls[c], call)) || AnsweredAt(cfg, t, c, call)
  {
    if Enabled(cfg, Reach(cfg, s, steps, k), steps[k]) {
      PgCreateRuns.ReachKeeps(cfg, s, steps, k);
      NextSettles(cfg, Reach(cfg, s, steps, k), PgCreateRuns.Bound(cfg, s), steps[k], c);
    }
  }

  /** Every call that returned nil, ErrCapacity or ErrAlreadyExists got what an atomic create would have
      answered at one moment between its arrival and its return: its own user, the user its key stood for
      at that moment, or that refusal. */
  lemma {:induction false} RepliesAreAtomic(cfg: Config, s: System, steps: seq<Step>, k: nat, c: nat) returns (j: nat)
    requires Init(s) && k <= |steps| && Settled(Reach(cfg, s, steps, k), c)
    ensures j < k && AnsweredAt(cfg, Reach(cfg, s, steps, j), c, Reach(cfg, s, steps, k).calls[c])
  {
    ReachSettles(cfg, s, steps, k - 1, c);
    j := k - 1;
    if !AnsweredAt(cfg, Reach(cfg, s, steps, j), c, Reach(cfg, s, steps, k).calls[c]) {
      j := RepliesAreAtomic(cfg, s, steps, k - 1, c);
    }
  }
}
