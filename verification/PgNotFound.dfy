/**
 Where the backends part: a keyed create that fails with ErrNotFound, which the in-memory
 repository never does. The lookup of the key and the read of its user are two statements, and
 a delete may come between them, also one that takes the key's row along.
 */
module PgNotFound {
  import opened Base
  import opened PgCreate
  import opened PgRefinement
  import opened PgScenarios
  import PgCreateRuns
  import Memory

  /** A call that has found its key fails with ErrNotFound exactly when the user is not there any more. An
      atomic create on the same rows never does. */
  lemma BackendsPartOnDanglingKeys(cfg: Config, s: System, bound: int, c: nat)
    requires Invariant(cfg, s, bound) && Enabled(cfg, s, Scan(c))
    ensures Outcome(cfg, s, Scan(c)) == Some(NotFound) <==> PhaseOf(s, c).id !in s.rows.users
    ensures AtomicReply(cfg, s.rows, s.calls[c].user, s.calls[c].key) != Memory.Failed(NotFound)
  {
    assert CallOk(s, c);
  }

  // ---------------------------------------------------------------------------
  // With deletes that cascade to the keys

  /** A delete takes all rows of the user's keys along, as the shipped schema has it. */
  predicate Cascades(s: System, step: Step) {
    step.Delete? ==> forall key :: key in s.rows.keys && s.rows.keys[key] == step.id ==> key in step.forgotten
  }

  predicate CascadesAt(cfg: Config, s: System, steps: seq<Step>, j: nat)
    requires j < |steps|
  {
    Cascades(Reach(cfg, s, steps, j), steps[j])
  }

  predicate Cascading(cfg: Config, s: System, steps: seq<Step>) {
    forall j :: 0 <= j < |steps| ==> CascadesAt(cfg, s, steps, j)
  }

  predicate KeysNameUsers(r: Rows) {
    forall key :: key in r.keys ==> r.keys[key] in r.users
  }

  lemma NextKeysNameUsers(cfg: Config, s: System, step: Step)
    requires KeysNameUsers(s.rows) && Cascades(s, step)
    ensures KeysNameUsers(Next(cfg, s, step).rows)
  {
    if PgCreateRuns.Silent(step) {
      PgCreateRuns.SilentKeepsRows(cfg, s, step);
    }
  }

  lemma {:induction false} ReachKeysNameUsers(cfg: Config, s: System, steps: seq<Step>, k: nat)
    requires KeysNameUsers(s.rows) && k <= |steps| && Cascading(cfg, s, steps)
    ensures KeysNameUsers(Reach(cfg, s, steps, k).rows)
  {
    if k > 0 {
      ReachKeysNameUsers(cfg, s, steps, k - 1);
      assert CascadesAt(cfg, s, steps, k - 1);
      NextKeysNameUsers(cfg, Reach(cfg, s, steps, k - 1), steps[k - 1]);
    }
  }

  /** Call `c` has found its key, which names `id`. */
  predicate HasFound(s: System, c: nat, id: Str) {
    InPhase(s, c) && PhaseOf(s, c) == KeyFound(id)
  }

  lemma OwnStepFinds(cfg: Config, s: System, step: Step, c: nat, id: Str)
    requires Enabled(cfg, s, step) && Caller(step) == Some(c) && HasFound(Apply(cfg, s, step), c, id)
    ensures step.Lookup? && s.calls[c].key in s.rows.keys && s.rows.keys[s.calls[c].key] == id
  {
    match step
    case Arrive(_, _, _) =>
    case Begin(_) =>
    case BeginFails(_, _) =>
    case GiveUp(_, _) =>
    case Break(_, _, _) =>
    case Commit(_) =>
    case _ =>
  }

  /** A key is found by looking it up. */
  lemma NextFinds(cfg: Config, s: System, bound: int, step: Step, c: nat, id: Str)
    requires Invariant(cfg, s, bound) && Enabled(cfg, s, step) && HasFound(Apply(cfg, s, step), c, id)
    ensures HasFound(s, c, id) || (step.Lookup? && s.calls[c].key in s.rows.keys && s.rows.keys[s.calls[c].key] == id)
  {
    if Caller(step) == Some(c) {
      OwnStepFinds(cfg, s, step, c, id);
    } else if c in s.calls {
      StepLeavesOthers(cfg, s, bound, step, c);
    } else {
      NoAnswerFromNowhere(cfg, s, step, c);
    }
  }

  lemma OnlyDeletesRemove(cfg: Config, s: System, step: Step, id: Str)
    requires id in s.rows.users && id !in Next(cfg, s, step).rows.users
    ensures Enabled(cfg, s, step) && step.Delete? && step.id == id
  {
    if PgCreateRuns.Silent(step) {
      PgCreateRuns.SilentKeepsRows(cfg, s, step);
    }
  }

  lemma FoundBefore(cfg: Config, s: System, steps: seq<Step>, k: nat, c: nat, id: Str)
    requires Init(s) && KeysNameUsers(s.rows) && k < |steps| && Cascading(cfg, s, steps)
    requires HasFound(Reach(cfg, s, steps, k + 1), c, id) && id !in Reach(cfg, s, steps, k + 1).rows.users
    ensures HasFound(Reach(cfg, s, steps, k), c, id)
  {
    var t := Reach(cfg, s, steps, k);
    if Enabled(cfg, t, steps[k]) {
      PgCreateRuns.ReachKeeps(cfg, s, steps, k);
      NextFinds(cfg, t, PgCreateRuns.Bound(cfg, s), steps[k], c, id);
      ReachKeysNameUsers(cfg, s, steps, k);
      if steps[k].Lookup? {
        PgCreateRuns.SilentKeepsRows(cfg, t, steps[k]);
      }
    }
  }

  /** Call `c` has found its key, which names `id`, from step `j` to step `k`. */
  predicate HasFoundSince(cfg: Config, s: System, steps: seq<Step>, j: nat, k: nat, c: nat, id: Str)
    requires k <= |steps|
  {
    forall m: nat :: j <= m <= k ==> HasFound(Reach(cfg, s, steps, m), c, id)
  }

  /** Step `j` deletes the user after the call has found the key, and the call has not moved on by step `k`. */
  predicate Overtaken(cfg: Config, s: System, steps: seq<Step>, j: nat, k: nat, c: nat, id: Str)
    requires k <= |steps|
  {
    && j < k && steps[j].Delete? && steps[j].id == id && Enabled(cfg, Reach(cfg, s, steps, j), steps[j])
    && HasFoundSince(cfg, s, steps, j, k, c, id)
  }

  /** Where deletes cascade, a call that is about to fail with ErrNotFound was overtaken: the user was deleted
      after the call had found the key and before it read the user. */
  lemma {:induction false} NotFoundIsARace(cfg: Config, s: System, steps: seq<Step>, k: nat, c: nat, id: Str)
    returns (j: nat)
    requires Init(s) && KeysNameUsers(s.rows) && k <= |steps| && Cascading(cfg, s, steps)
    requires HasFound(Reach(cfg, s, steps, k), c, id) && id !in Reach(cfg, s, steps, k).rows.users
    ensures Overtaken(cfg, s, steps, j, k, c, id)
  {
    FoundBefore(cfg, s, steps, k - 1, c, id);
    if id in Reach(cfg, s, steps, k - 1).rows.users {
      OnlyDeletesRemove(cfg, Reach(cfg, s, steps, k - 1), steps[k - 1], id);
      j := k - 1;
    } else {
      j := NotFoundIsARace(cfg, s, steps, k - 1, c, id);
    }
  }

  /** While the call has its key, it has the lock: nothing is committed, so a user that is gone stays gone. */
  lemma NextStaysGone(cfg: Config, s: System, bound: int, step: Step, c: nat, id: Str)
    requires Invariant(cfg, s, bound) && HasFound(s, c, id) && id !in s.rows.users
    ensures id !in Next(cfg, s, step).rows.users
  {
    if PgCreateRuns.Silent(step) {
      PgCreateRuns.SilentKeepsRows(cfg, s, step);
    } else if Enabled(cfg, s, step) {
      assert SessionOk(cfg, s, s.calls[c].pc.session);
      match step
      case Commit(d) => assert SessionOk(cfg, s, s.calls[d].pc.session);
      case LateCommit(x) => assert SessionOk(cfg, s, x);
      case _ =>
    }
  }

  lemma DeleteRemoves(cfg: Config, s: System, step: Step)
    requires step.Delete? && Enabled(cfg, s, step)
    ensures step.id !in Next(cfg, s, step).rows.users
  {
  }

  lemma ReachStaysGone(cfg: Config, s: System, steps: seq<Step>, k: nat, c: nat, id: Str)
    requires Init(s) && k < |steps|
    requires HasFound(Reach(cfg, s, steps, k), c, id) && id !in Reach(cfg, s, steps, k).rows.users
    ensures id !in Reach(cfg, s, steps, k + 1).rows.users
  {
    PgCreateRuns.ReachKeeps(cfg, s, steps, k);
    NextStaysGone(cfg, Reach(cfg, s, steps, k), PgCreateRuns.Bound(cfg, s), steps[k], c, id);
  }

  lemma {:induction false} OvertakenStaysGone(cfg: Config, s: System, steps: seq<Step>, j: nat, k: nat, c: nat, id: Str)
    requires Init(s) && k <= |steps| && Overtaken(cfg, s, steps, j, k, c, id)
    ensures id !in Reach(cfg, s, steps, k).rows.users
  {
    if k == j + 1 {
      DeleteRemoves(cfg, Reach(cfg, s, steps, j), steps[j]);
    } else {
      OvertakenStaysGone(cfg, s, steps, j, k - 1, c, id);
      ReachStaysGone(cfg, s, steps, k - 1, c, id);
    }
  }

  /** A call that has found its key is overtaken by a delete, with or without a cascade, only to fail; and
      where deletes cascade it fails for no other reason. */
  lemma NotFoundIff(cfg: Config, s: System, steps: seq<Step>, k: nat, c: nat)
    requires Init(s) && k <= |steps| && Enabled(cfg, Reach(cfg, s, steps, k), Scan(c))
    ensures var t := Reach(cfg, s, steps, k);
            var id := PhaseOf(t, c).id;
            var fails := Outcome(cfg, t, Scan(c)) == Some(NotFound);
            && ((exists j: nat :: Overtaken(cfg, s, steps, j, k, c, id)) ==> fails)
            && (KeysNameUsers(s.rows) && Cascading(cfg, s, steps) ==>
                (fails <==> exists j: nat :: Overtaken(cfg, s, steps, j, k, c, id)))
  {
    var t := Reach(cfg, s, steps, k);
    var id := PhaseOf(t, c).id;
    PgCreateRuns.ReachKeeps(cfg, s, steps, k);
    BackendsPartOnDanglingKeys(cfg, t, PgCreateRuns.Bound(cfg, s), c);
    if j: nat :| Overtaken(cfg, s, steps, j, k, c, id) {
      OvertakenStaysGone(cfg, s, steps, j, k, c, id);
    }
    if KeysNameUsers(s.rows) && Cascading(cfg, s, steps) && id !in t.rows.users {
      var j := NotFoundIsARace(cfg, s, steps, k, c, id);
    }
  }

  // ---------------------------------------------------------------------------
  // Both ways it happens

  lemma CascadeExtends(cfg: Config, s: System, steps: seq<Step>, step: Step)
    requires Cascading(cfg, s, steps) && Cascades(Final(cfg, s, steps), step)
    ensures Cascading(cfg, s, steps + [step])
  {
    forall j | 0 <= j < |steps + [step]| ensures CascadesAt(cfg, s, steps + [step], j) {
      SamePrefix(cfg, s, steps, step, j);
      assert j < |steps| ==> CascadesAt(cfg, s, steps, j);
    }
  }

  /** A call that has found the key of a deleted user fails. */
  lemma ScanFails(cfg: Config, q: System, c: nat, call: Call, id: Str)
    requires id !in q.rows.users
    ensures var s' := Next(cfg, Alone(q, c, call, KeyFound(id)), Scan(c));
            c in s'.calls && s'.calls[c] == call.(pc := Returned(Some(NotFound)))
  {
    MovesOn(q, c, call, KeyFound(id), KeyMissing);
  }

  predicate EndsNotFound(s: System, c: nat) {
    c in s.calls && s.calls[c].pc == Returned(Some(NotFound))
  }

  /** With the cascade: the delete comes between the two statements. */
  lemma RaceHappens(cfg: Config) returns (steps: seq<Step>)
    ensures Init(STOCKED) && KeysNameUsers(STOCKED.rows) && Cascading(cfg, STOCKED, steps)
    ensures EndsNotFound(Final(cfg, STOCKED, steps), 0)
  {
    StockedIsInit();
    var q, call := ArrivedIn(STOCKED, 0, BOB, KEY), Waiter(BOB, KEY);
    var r := RunFromArrival(cfg, STOCKED, [], 0, BOB, KEY);
    LooksUp(cfg, q, 0, call);
    var found := Extend(cfg, STOCKED, r, Lookup(0));
    assert Cascading(cfg, STOCKED, found);
    DeletesAnn(cfg, Final(cfg, STOCKED, found), {KEY});
    CascadeExtends(cfg, STOCKED, found, Delete(ANN.id, {KEY}));
    var deleted := Extend(cfg, STOCKED, found, Delete(ANN.id, {KEY}));
    assert Final(cfg, STOCKED, deleted) == Alone(q.(rows := WithoutAnn({KEY})), 0, call, KeyFound(ANN.id));
    ScanFails(cfg, q.(rows := WithoutAnn({KEY})), 0, call, ANN.id);
    CascadeExtends(cfg, STOCKED, deleted, Scan(0));
    steps := Extend(cfg, STOCKED, deleted, Scan(0));
  }

  /** Without it, which takes another schema than the shipped one: the key's row stays, and calls that
      come later fail too. */
  lemma SurvivingKeyFails(cfg: Config) returns (steps: seq<Step>)
    ensures Init(STOCKED) && |steps| > 0 && steps[0] == Delete(ANN.id, {})
    ensures EndsNotFound(Final(cfg, STOCKED, steps), 0)
  {
    StockedIsInit();
    DeletesAnn(cfg, STOCKED, {});
    var deleted := Extend(cfg, STOCKED, [], Delete(ANN.id, {}));
    var q, call := Final(cfg, STOCKED, deleted), Waiter(BOB, KEY);
    assert KEY in q.rows.keys && q.rows.keys[KEY] == ANN.id;
    var r := RunFromArrival(cfg, STOCKED, deleted, 0, BOB, KEY);
    LooksUp(cfg, ArrivedIn(q, 0, BOB, KEY), 0, call);
    steps := Extend(cfg, STOCKED, r, Lookup(0));
    ScanFails(cfg, ArrivedIn(q, 0, BOB, KEY), 0, call, ANN.id);
    steps := Extend(cfg, STOCKED, steps, Scan(0));
  }
}
