/**
 Whole runs of the PostgreSQL protocol against the in-memory repository doing the same
 operations one at a time, in the order of their commits. The one difference between the two
 is what a delete leaves behind: the in-memory repository keeps the key of a deleted user,
 the database may drop the key's row with it (the shipped schema does).
 */
module PgSequential {
  import opened Base
  import opened PgCreate
  import opened PgRefinement
  import opened PgScenarios
  import PgCreateRuns
  import Memory
  import MemoryRuns

  /** The atomic create that a commit amounts to; a replay changes nothing. */
  function Staged(cfg: Config, t: Session): Option<Memory.Op> {
    if t.phase.Replaying? then None else Some(AtomicCreate(cfg, t.user, t.key))
  }

  /** The in-memory operation that a step performs on the committed rows, if any. */
  function Performed(cfg: Config, s: System, step: Step): Option<Memory.Op> {
    if !Enabled(cfg, s, step) then None
    else
      match step
      case Commit(c) => Staged(cfg, s.sessions[s.calls[c].pc.session])
      case LateCommit(x) => Staged(cfg, s.sessions[x])
      case Update(u) => Some(Memory.Op.Update(Live, Some(u)))
      case Delete(id, _) => Some(Memory.Op.Delete(Live, id))
      case _ => None
  }

  /** The operations performed by the first `k` steps, in the order of their commits. */
  function History(cfg: Config, s: System, steps: seq<Step>, k: nat): seq<Memory.Op>
    requires k <= |steps|
  {
    if k == 0 then []
    else Extended(History(cfg, s, steps, k - 1), Performed(cfg, Reach(cfg, s, steps, k - 1), steps[k - 1]))
  }

  function Extended(ops: seq<Memory.Op>, op: Option<Memory.Op>): seq<Memory.Op> {
    if op.Some? then ops + [op.value] else ops
  }

  function Effect(m: Memory.State, op: Option<Memory.Op>): Memory.State {
    if op.Some? then Memory.Effect(m, op.value) else m
  }

  /** The in-memory repository after the operations, one at a time. */
  function Sequential(m: Memory.State, ops: seq<Memory.Op>): Memory.State {
    if ops == [] then m else Memory.Effect(Sequential(m, ops[..|ops| - 1]), ops[|ops| - 1])
  }

  lemma SequentialExtends(m: Memory.State, ops: seq<Memory.Op>, op: Option<Memory.Op>)
    ensures Sequential(m, Extended(ops, op)) == Effect(Sequential(m, ops), op)
  {
    if op.Some? {
      assert (ops + [op.value])[..|ops|] == ops;
    }
  }

  /** The in-memory repository that has performed what the first `k` steps performed. */
  function InMemory(cfg: Config, s: System, steps: seq<Step>, k: nat): Memory.State
    requires k <= |steps|
  {
    Sequential(AsMemory(s.rows), History(cfg, s, steps, k))
  }

  // ---------------------------------------------------------------------------
  // Keys whose rows are gone

  type Gone = map<Str, Str>

  /** A key that is used again is no longer gone. */
  function Reused(gone: Gone, t: Session): Gone {
    if t.phase.Replaying? || t.key == [] then gone else gone - {t.key}
  }

  function GoneAfter(cfg: Config, s: System, step: Step, gone: Gone): Gone {
    if !Enabled(cfg, s, step) then gone
    else
      match step
      case Commit(c) => Reused(gone, s.sessions[s.calls[c].pc.session])
      case LateCommit(x) => Reused(gone, s.sessions[x])
      case Delete(id, forgotten) => gone + map key | key in forgotten :: id
      case _ => gone
  }

  /** The keys whose rows deletes have taken along and that were not used since, with the users they named. */
  function GoneAt(cfg: Config, s: System, steps: seq<Step>, k: nat): Gone
    requires k <= |steps|
  {
    if k == 0 then map[]
    else GoneAfter(cfg, Reach(cfg, s, steps, k - 1), steps[k - 1], GoneAt(cfg, s, steps, k - 1))
  }

  /** The in-memory repository still has those keys. */
  function WithGone(r: Rows, gone: Gone): Memory.State {
    Memory.State.State(r.users, r.keys + gone, false)
  }

  predicate Disjoint(r: Rows, gone: Gone) {
    forall key :: key in gone ==> key !in r.keys
  }

  /** A new user is committed under a key that is gone while the user it named is back. */
  predicate UsesRevived(r: Rows, t: Session, gone: Gone) {
    !t.phase.Replaying? && t.key != [] && t.key in gone && gone[t.key] in r.users
  }

  predicate Revives(cfg: Config, s: System, step: Step, gone: Gone) {
    && Enabled(cfg, s, step)
    && match step
       case Commit(c) => UsesRevived(s.rows, s.sessions[s.calls[c].pc.session], gone)
       case LateCommit(x) => UsesRevived(s.rows, s.sessions[x], gone)
       case _ => false
  }

  // ---------------------------------------------------------------------------
  // One step

  lemma PublishPerforms(cfg: Config, s: System, bound: int, x: nat, gone: Gone)
    requires Invariant(cfg, s, bound) && x in s.sessions && s.sessions[x].Ready() && Disjoint(s.rows, gone)
    requires !UsesRevived(s.rows, s.sessions[x], gone)
    ensures var r', gone' := Publish(s, x).rows, Reused(gone, s.sessions[x]);
            Disjoint(r', gone') && WithGone(r', gone') == Effect(WithGone(s.rows, gone), Staged(cfg, s.sessions[x]))
  {
    var t := s.sessions[x];
    assert SessionOk(cfg, s, x);
    if !t.phase.Replaying? && t.key != [] {
      assert s.rows.keys[t.key := t.user.id] + (gone - {t.key}) == (s.rows.keys + gone)[t.key := t.user.id];
    }
  }

  /** The in-memory repository replays the user that is back, and so falls short of the new one. */
  lemma RevivalParts(cfg: Config, s: System, bound: int, x: nat, gone: Gone)
    requires Invariant(cfg, s, bound) && x in s.sessions && s.sessions[x].Ready() && Disjoint(s.rows, gone)
    requires UsesRevived(s.rows, s.sessions[x], gone)
    ensures Effect(WithGone(s.rows, gone), Staged(cfg, s.sessions[x])).users == s.rows.users != Publish(s, x).rows.users
  {
    assert SessionOk(cfg, s, x);
    assert s.sessions[x].user.id in Publish(s, x).rows.users;
  }

  lemma DeletePerforms(cfg: Config, s: System, id: Str, forgotten: set<Str>, gone: Gone)
    requires Enabled(cfg, s, Delete(id, forgotten)) && Disjoint(s.rows, gone)
    ensures var r', gone' := Apply(cfg, s, Delete(id, forgotten)).rows, gone + map key | key in forgotten :: id;
            && Disjoint(r', gone')
            && WithGone(r', gone') == Memory.Effect(WithGone(s.rows, gone), Memory.Op.Delete(Live, id))
  {
    assert (s.rows.keys - forgotten) + (gone + map key | key in forgotten :: id) == s.rows.keys + gone;
  }

  lemma UpdatePerforms(cfg: Config, s: System, u: User, gone: Gone)
    requires Enabled(cfg, s, Update(u))
    ensures WithGone(Apply(cfg, s, Update(u)).rows, gone)
            == Memory.Effect(WithGone(s.rows, gone), Memory.Op.Update(Live, Some(u)))
  {
  }

  lemma SilentPerforms(cfg: Config, s: System, step: Step, gone: Gone)
    requires PgCreateRuns.Silent(step)
    ensures Next(cfg, s, step).rows == s.rows
    ensures GoneAfter(cfg, s, step, gone) == gone && Performed(cfg, s, step) == None
  {
    PgCreateRuns.SilentKeepsRows(cfg, s, step);
  }

  /** The rows and the gone keys go on to make up what the in-memory repository becomes. */
  predicate Performs(cfg: Config, s: System, step: Step, gone: Gone) {
    var r', gone' := Next(cfg, s, step).rows, GoneAfter(cfg, s, step, gone);
    Disjoint(r', gone') && WithGone(r', gone') == Effect(WithGone(s.rows, gone), Performed(cfg, s, step))
  }

  lemma NothingPerforms(cfg: Config, s: System, step: Step, gone: Gone)
    requires (!Enabled(cfg, s, step) || PgCreateRuns.Silent(step)) && Disjoint(s.rows, gone)
    ensures Performs(cfg, s, step, gone)
  {
    if PgCreateRuns.Silent(step) {
      SilentPerforms(cfg, s, step, gone);
    }
  }

  lemma CommitPerforms(cfg: Config, s: System, bound: int, c: nat, gone: Gone)
    requires Invariant(cfg, s, bound) && Disjoint(s.rows, gone)
    requires Enabled(cfg, s, Commit(c)) && !Revives(cfg, s, Commit(c), gone)
    ensures Performs(cfg, s, Commit(c), gone)
  {
    PublishPerforms(cfg, s, bound, s.calls[c].pc.session, gone);
  }

  lemma LateCommitPerforms(cfg: Config, s: System, bound: int, x: nat, gone: Gone)
    requires Invariant(cfg, s, bound) && Disjoint(s.rows, gone)
    requires Enabled(cfg, s, LateCommit(x)) && !Revives(cfg, s, LateCommit(x), gone)
    ensures Performs(cfg, s, LateCommit(x), gone)
  {
    PublishPerforms(cfg, s, bound, x, gone);
  }

  lemma OutsidePerforms(cfg: Config, s: System, step: Step, gone: Gone)
    requires Enabled(cfg, s, step) && (step.Update? || step.Delete?) && Disjoint(s.rows, gone)
    ensures Performs(cfg, s, step, gone)
  {
    match step
    case Update(u) => UpdatePerforms(cfg, s, u, gone);
    case Delete(id, forgotten) => DeletePerforms(cfg, s, id, forgotten, gone);
  }

  lemma NextPerforms(cfg: Config, s: System, bound: int, step: Step, gone: Gone)
    requires Invariant(cfg, s, bound) && Disjoint(s.rows, gone) && !Revives(cfg, s, step, gone)
    ensures Performs(cfg, s, step, gone)
  {
    if !Enabled(cfg, s, step) || PgCreateRuns.Silent(step) {
      NothingPerforms(cfg, s, step, gone);
    } else if step.Commit? {
      CommitPerforms(cfg, s, bound, step.call, gone);
    } else if step.LateCommit? {
      LateCommitPerforms(cfg, s, bound, step.session, gone);
    } else {
      OutsidePerforms(cfg, s, step, gone);
    }
  }

  lemma NextParts(cfg: Config, s: System, bound: int, step: Step, gone: Gone)
    requires Invariant(cfg, s, bound) && Disjoint(s.rows, gone) && Revives(cfg, s, step, gone)
    ensures Effect(WithGone(s.rows, gone), Performed(cfg, s, step)).users != Next(cfg, s, step).rows.users
  {
    match step
    case Commit(c) => RevivalParts(cfg, s, bound, s.calls[c].pc.session, gone);
    case LateCommit(x) => RevivalParts(cfg, s, bound, x, gone);
  }

  // ---------------------------------------------------------------------------
  // Whole runs

  predicate RevivesAt(cfg: Config, s: System, steps: seq<Step>, j: nat)
    requires j < |steps|
  {
    Revives(cfg, Reach(cfg, s, steps, j), steps[j], GoneAt(cfg, s, steps, j))
  }

  predicate NoRevival(cfg: Config, s: System, steps: seq<Step>, k: nat)
    requires k <= |steps|
  {
    forall j :: 0 <= j < k ==> !RevivesAt(cfg, s, steps, j)
  }

  /** The rows and the gone keys make up the in-memory repository. */
  predicate Mirrored(cfg: Config, s: System, steps: seq<Step>, k: nat)
    requires k <= |steps|
  {
    var r, gone := Reach(cfg, s, steps, k).rows, GoneAt(cfg, s, steps, k);
    Disjoint(r, gone) && InMemory(cfg, s, steps, k) == WithGone(r, gone)
  }

  lemma InMemoryStep(cfg: Config, s: System, steps: seq<Step>, k: nat)
    requires k < |steps|
    ensures InMemory(cfg, s, steps, k + 1)
            == Effect(InMemory(cfg, s, steps, k), Performed(cfg, Reach(cfg, s, steps, k), steps[k]))
  {
    SequentialExtends(AsMemory(s.rows), History(cfg, s, steps, k), Performed(cfg, Reach(cfg, s, steps, k), steps[k]));
  }

  lemma MirroredAtFirst(cfg: Config, s: System, steps: seq<Step>)
    ensures Mirrored(cfg, s, steps, 0)
  {
    assert s.rows.keys + map[] == s.rows.keys;
  }

  lemma MirroredNext(cfg: Config, s: System, steps: seq<Step>, k: nat)
    requires Init(s) && k < |steps| && Mirrored(cfg, s, steps, k) && !RevivesAt(cfg, s, steps, k)
    ensures Mirrored(cfg, s, steps, k + 1)
  {
    PgCreateRuns.ReachKeeps(cfg, s, steps, k);
    NextPerforms(cfg, Reach(cfg, s, steps, k), PgCreateRuns.Bound(cfg, s), steps[k], GoneAt(cfg, s, steps, k));
    InMemoryStep(cfg, s, steps, k);
  }

  /** Whatever interleaves, fails or takes effect late, and whatever deletes take along, the committed rows
      are those of the in-memory repository after the run's operations one at a time, but for the keys that
      are gone. */
  lemma {:induction false} RunIsSequential(cfg: Config, s: System, steps: seq<Step>, k: nat)
    requires Init(s) && k <= |steps| && NoRevival(cfg, s, steps, k)
    ensures Mirrored(cfg, s, steps, k)
  {
    if k == 0 {
      MirroredAtFirst(cfg, s, steps);
    } else {
      RunIsSequential(cfg, s, steps, k - 1);
      assert !RevivesAt(cfg, s, steps, k - 1);
      MirroredNext(cfg, s, steps, k - 1);
    }
  }

  predicate UsersAgree(cfg: Config, s: System, steps: seq<Step>, k: nat)
    requires k <= |steps|
  {
    InMemory(cfg, s, steps, k).users == Reach(cfg, s, steps, k).rows.users
  }

  /** The first use of a revived key makes the two part. */
  lemma {:induction false} RevivalIsNoticed(cfg: Config, s: System, steps: seq<Step>, k: nat) returns (j: nat)
    requires Init(s) && k <= |steps| && !NoRevival(cfg, s, steps, k)
    ensures j <= k && !UsersAgree(cfg, s, steps, j)
  {
    if NoRevival(cfg, s, steps, k - 1) {
      assert RevivesAt(cfg, s, steps, k - 1);
      RunIsSequential(cfg, s, steps, k - 1);
      PartsNext(cfg, s, steps, k - 1);
      j := k;
    } else {
      j := RevivalIsNoticed(cfg, s, steps, k - 1);
    }
  }

  lemma PartsNext(cfg: Config, s: System, steps: seq<Step>, k: nat)
    requires Init(s) && k < |steps| && Mirrored(cfg, s, steps, k) && RevivesAt(cfg, s, steps, k)
    ensures !UsersAgree(cfg, s, steps, k + 1)
  {
    PgCreateRuns.ReachKeeps(cfg, s, steps, k);
    NextParts(cfg, Reach(cfg, s, steps, k), PgCreateRuns.Bound(cfg, s), steps[k], GoneAt(cfg, s, steps, k));
    InMemoryStep(cfg, s, steps, k);
  }

  /** The two backends have the same users throughout a run if and only if no user is committed under a key
      that is gone while the user it named is back. */
  lemma BackendsAgreeIff(cfg: Config, s: System, steps: seq<Step>)
    requires Init(s)
    ensures (forall k: nat :: k <= |steps| ==> UsersAgree(cfg, s, steps, k)) <==> NoRevival(cfg, s, steps, |steps|)
  {
    if NoRevival(cfg, s, steps, |steps|) {
      forall k: nat | k <= |steps| ensures UsersAgree(cfg, s, steps, k) {
        RunIsSequential(cfg, s, steps, k);
      }
    } else {
      var j := RevivalIsNoticed(cfg, s, steps, |steps|);
    }
  }

  // ---------------------------------------------------------------------------
  // Ids that are not used twice

  /** Step `j` commits a user whose id was deleted before. */
  predicate ReinsertsAt(cfg: Config, s: System, steps: seq<Step>, j: nat)
    requires j < |steps|
  {
    var t := Reach(cfg, s, steps, j);
    var op := Performed(cfg, t, steps[j]);
    op.Some? && op.value.CreateKeyed? && op.value.user.Some? && op.value.user.value.id in t.rows.deleted
  }

  predicate FreshIds(cfg: Config, s: System, steps: seq<Step>, k: nat)
    requires k <= |steps|
  {
    forall j :: 0 <= j < k ==> !ReinsertsAt(cfg, s, steps, j)
  }

  /** The users that gone keys named were deleted, and are not stored. */
  predicate TrulyGone(r: Rows, gone: Gone) {
    && (forall key :: key in gone ==> gone[key] in r.deleted)
    && (forall id :: id in r.deleted ==> id !in r.users)
  }

  lemma NextTrulyGone(cfg: Config, s: System, step: Step, gone: Gone)
    requires TrulyGone(s.rows, gone)
    requires var op := Performed(cfg, s, step);
             op.Some? && op.value.CreateKeyed? && op.value.user.Some? ==> op.value.user.value.id !in s.rows.deleted
    ensures TrulyGone(Next(cfg, s, step).rows, GoneAfter(cfg, s, step, gone))
  {
    if PgCreateRuns.Silent(step) {
      PgCreateRuns.SilentKeepsRows(cfg, s, step);
    }
  }

  lemma {:induction false} FreshIdsStayGone(cfg: Config, s: System, steps: seq<Step>, k: nat)
    requires Init(s) && k <= |steps| && FreshIds(cfg, s, steps, k)
    ensures TrulyGone(Reach(cfg, s, steps, k).rows, GoneAt(cfg, s, steps, k)) && NoRevival(cfg, s, steps, k)
  {
    if k > 0 {
      FreshIdsStayGone(cfg, s, steps, k - 1);
      assert !ReinsertsAt(cfg, s, steps, k - 1);
      assert !RevivesAt(cfg, s, steps, k - 1);
      NextTrulyGone(cfg, Reach(cfg, s, steps, k - 1), steps[k - 1], GoneAt(cfg, s, steps, k - 1));
    }
  }

  /** The stored user a key stands for. */
  function Named(keys: map<Str, Str>, users: map<Str, User>, key: Str): Option<Str> {
    if key in keys && keys[key] in users then Some(keys[key]) else None
  }

  /** When no deleted id is inserted again, the backends have the same users throughout, every key stands for
      the same stored user in both, and a key of the in-memory repository that stands for none is left over
      from a deleted user. */
  lemma FreshIdsAgree(cfg: Config, s: System, steps: seq<Step>, k: nat, key: Str)
    requires Init(s) && k <= |steps| && FreshIds(cfg, s, steps, k)
    ensures var m, r := InMemory(cfg, s, steps, k), Reach(cfg, s, steps, k).rows;
            && m.users == r.users && !m.closed
            && Named(m.idem, m.users, key) == Named(r.keys, r.users, key)
            && (key in m.idem && m.idem[key] !in m.users ==> m.idem[key] in r.deleted)
  {
    var r := Reach(cfg, s, steps, k).rows;
    FreshIdsStayGone(cfg, s, steps, k);
    RunIsSequential(cfg, s, steps, k);
    PgCreateRuns.ReachKeeps(cfg, s, steps, k);
    if key in r.keys {
      var i :| 0 <= i < |r.created| && r.created[i] == (key, r.keys[key]);
      assert EntryOk(r, r.created[i]);
    }
  }

  lemma SameReply(cfg: Config, m: Memory.State, r: Rows, user: User, key: Str)
    requires m.users == r.users && !m.closed && Named(m.idem, m.users, key) == Named(r.keys, r.users, key)
    ensures MemoryRuns.KeyedReply(m, AtomicCreate(cfg, user, key)) == AtomicReply(cfg, r, user, key)
  {
  }

  /** And every call that returned nil, ErrCapacity or ErrAlreadyExists got the answer which the in-memory
      repository, having performed what was committed by then, gives at one moment while the call was under way. */
  lemma RepliesAreSequential(cfg: Config, s: System, steps: seq<Step>, k: nat, c: nat) returns (j: nat)
    requires Init(s) && k <= |steps| && FreshIds(cfg, s, steps, k) && Settled(Reach(cfg, s, steps, k), c)
    ensures j < k && c in Reach(cfg, s, steps, j).calls && !Reach(cfg, s, steps, j).calls[c].pc.Returned?
    ensures var call := Reach(cfg, s, steps, k).calls[c];
            MemoryRuns.KeyedReply(InMemory(cfg, s, steps, j), AtomicCreate(cfg, call.user, call.key)) == AnswerOf(call)
  {
    j := RepliesAreAtomic(cfg, s, steps, k, c);
    var call := Reach(cfg, s, steps, k).calls[c];
    FreshIdsAgree(cfg, s, steps, j, call.key);
    SameReply(cfg, InMemory(cfg, s, steps, j), Reach(cfg, s, steps, j).rows, call.user, call.key);
  }

  // ---------------------------------------------------------------------------
  // An id that comes back

  lemma {:induction false} GonePrefix(cfg: Config, s: System, steps: seq<Step>, step: Step, k: nat)
    requires k <= |steps|
    ensures GoneAt(cfg, s, steps + [step], k) == GoneAt(cfg, s, steps, k)
  {
    if k > 0 {
      GonePrefix(cfg, s, steps, step, k - 1);
      SamePrefix(cfg, s, steps, step, k - 1);
    }
  }

  lemma GoneExtends(cfg: Config, s: System, steps: seq<Step>, step: Step)
    ensures GoneAt(cfg, s, steps + [step], |steps| + 1)
            == GoneAfter(cfg, Final(cfg, s, steps), step, GoneAt(cfg, s, steps, |steps|))
  {
    GonePrefix(cfg, s, steps, step, |steps|);
    SamePrefix(cfg, s, steps, step, |steps|);
  }

  lemma SilentLeavesGone(cfg: Config, s: System, steps: seq<Step>, step: Step)
    requires PgCreateRuns.Silent(step)
    ensures GoneAt(cfg, s, steps + [step], |steps| + 1) == GoneAt(cfg, s, steps, |steps|)
  {
    GoneExtends(cfg, s, steps, step);
    SilentPerforms(cfg, Final(cfg, s, steps), step, GoneAt(cfg, s, steps, |steps|));
  }

  lemma {:induction false} GoneContinues(cfg: Config, s: System, steps: seq<Step>, r: seq<Step>)
    requires Continues(steps, r)
    ensures GoneAt(cfg, s, r, |r|) == GoneAt(cfg, s, steps, |steps|)
    decreases |r|
  {
    if |r| == |steps| {
      assert r == steps;
    } else {
      var front, last := r[..|r| - 1], r[|r| - 1];
      assert r == front + [last];
      assert Continues(steps, front);
      GoneContinues(cfg, s, steps, front);
      SilentLeavesGone(cfg, s, front, last);
    }
  }

  /** The user of the key is deleted and the key's row goes with it. */
  const DELETED := STOCKED.(rows := WithoutAnn({KEY}))

  const LEFT_OVER: Gone := map[KEY := ANN.id]

  lemma DeleteForgets(cfg: Config) returns (steps: seq<Step>)
    ensures Final(cfg, STOCKED, steps) == DELETED && GoneAt(cfg, STOCKED, steps, |steps|) == LEFT_OVER
  {
    var step := Delete(ANN.id, {KEY});
    DeletesAnn(cfg, STOCKED, {KEY});
    steps := Extend(cfg, STOCKED, [], step);
    GoneExtends(cfg, STOCKED, [], step);
    assert Enabled(cfg, STOCKED, step);
    assert GoneAfter(cfg, STOCKED, step, map[]) == LEFT_OVER;
  }

  /** Its id is on the way in again, without a key. */
  lemma IdIsStaged(cfg: Config) returns (steps: seq<Step>)
    requires cfg.maxUsers >= 2
    ensures Final(cfg, STOCKED, steps) == Alone(ArrivedIn(DELETED, 0, ANN, []), 0, Waiter(ANN, []), UserStaged)
    ensures GoneAt(cfg, STOCKED, steps, |steps|) == LEFT_OVER
  {
    var first := DeleteForgets(cfg);
    var r := RunFromArrival(cfg, STOCKED, first, 0, ANN, []);
    GoneContinues(cfg, STOCKED, first, r);
    steps := RunToStaged(cfg, STOCKED, r, ArrivedIn(DELETED, 0, ANN, []), 0, Waiter(ANN, []));
    GoneContinues(cfg, STOCKED, r, steps);
  }

  /** It is back. */
  lemma IdReturns(cfg: Config) returns (steps: seq<Step>)
    requires cfg.maxUsers >= 2
    ensures var q := Final(cfg, STOCKED, steps);
            Quiet(q) && 1 !in q.calls && q.rows.users == map[ANN.id := ANN] && q.rows.keys == map[]
    ensures GoneAt(cfg, STOCKED, steps, |steps|) == LEFT_OVER
  {
    var r := IdIsStaged(cfg);
    IdCommits(cfg);
    steps := Extend(cfg, STOCKED, r, Commit(0));
    GoneExtends(cfg, STOCKED, r, Commit(0));
  }

  lemma IdCommits(cfg: Config)
    ensures var staged := Alone(ArrivedIn(DELETED, 0, ANN, []), 0, Waiter(ANN, []), UserStaged);
            var q := Next(cfg, staged, Commit(0));
            && Quiet(q) && 1 !in q.calls && q.rows.users == map[ANN.id := ANN] && q.rows.keys == map[]
            && GoneAfter(cfg, staged, Commit(0), LEFT_OVER) == LEFT_OVER
  {
    CommitsAlone(cfg, ArrivedIn(DELETED, 0, ANN, []), 0, Waiter(ANN, []));
    StagedLeavesGone(cfg, ArrivedIn(DELETED, 0, ANN, []), 0, Waiter(ANN, []), LEFT_OVER);
  }

  /** An unkeyed commit leaves the gone keys as they are. */
  lemma StagedLeavesGone(cfg: Config, q: System, c: nat, call: Call, gone: Gone)
    requires call.key == []
    ensures GoneAfter(cfg, Alone(q, c, call, UserStaged), Commit(c), gone) == gone
  {
    MovesOn(q, c, call, UserStaged, KeyStaged);
  }

  /** Another user is about to be committed under the key. */
  lemma KeyIsStaged(cfg: Config) returns (steps: seq<Step>, q: System)
    requires cfg.maxUsers >= 2
    ensures Final(cfg, STOCKED, steps) == Alone(q, 1, Waiter(BOB, KEY), KeyStaged)
    ensures ANN.id in q.rows.users && GoneAt(cfg, STOCKED, steps, |steps|) == LEFT_OVER
  {
    var back := IdReturns(cfg);
    q := ArrivedIn(Final(cfg, STOCKED, back), 1, BOB, KEY);
    assert |q.rows.users.Keys| == 1;
    var r := RunFromArrival(cfg, STOCKED, back, 1, BOB, KEY);
    GoneContinues(cfg, STOCKED, back, r);
    steps := RunToKeyStaged(cfg, STOCKED, r, q, 1, Waiter(BOB, KEY));
    GoneContinues(cfg, STOCKED, r, steps);
  }

  /** So there are runs in which the backends part. */
  lemma RevivalHappens(cfg: Config) returns (steps: seq<Step>)
    requires cfg.maxUsers >= 2
    ensures Init(STOCKED) && !NoRevival(cfg, STOCKED, steps, |steps|)
  {
    StockedIsInit();
    var r, q := KeyIsStaged(cfg);
    MovesOn(q, 1, Waiter(BOB, KEY), KeyStaged, Counted);
    steps := Revived(cfg, STOCKED, r);
  }

  lemma Revived(cfg: Config, s: System, steps: seq<Step>) returns (r: seq<Step>)
    requires Revives(cfg, Final(cfg, s, steps), Commit(1), GoneAt(cfg, s, steps, |steps|))
    ensures r == steps + [Commit(1)] && !NoRevival(cfg, s, r, |r|)
  {
    r := steps + [Commit(1)];
    GonePrefix(cfg, s, steps, Commit(1), |steps|);
    SamePrefix(cfg, s, steps, Commit(1), |steps|);
    assert RevivesAt(cfg, s, r, |steps|);
  }
}
