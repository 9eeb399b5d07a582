/**
 Creating users in PostgreSQL: any number of concurrent calls, each retrying a transaction
 that takes the advisory lock, looks up its idempotency key, counts the users, inserts and
 commits. The database is an abstract store of committed rows with one transaction-scoped
 lock; every statement is one step and reads the rows committed by then.

 A statement or a commit may report an error at any point. The client then either has the
 transaction rolled back, or loses its connection: the session stays behind with the lock
 until the server resolves it, and a commit that was under way may still take effect.
 */
module PgCreate {
  import opened Base

  /** The limit every create passes, and the attempts of a call (the constructor makes them at least 1). */
  datatype Config = Config(maxUsers: int, maxAttempts: int)

  /** How far a transaction has come. */
  datatype Phase =
    | Begun                  // no lock yet
    | Locked                 // holds the advisory lock
    | KeyFound(id: Str)      // the key row names this user
    | Replaying(u: User)     // that user has been read; ready to commit
    | KeyMissing             // no row for the key
    | Counted                // the count left room
    | UserStaged             // the user row is inserted
    | KeyStaged              // the key row is inserted too

  /** A server-side transaction, the call it was begun for, and whether that is still connected. */
  datatype Session = Session(user: User, key: Str, phase: Phase, call: nat, connected: bool) {
    predicate Ready() {
      phase.Replaying? || (if key == [] then phase.UserStaged? else phase.KeyStaged?)
    }
  }

  datatype Pc = Waiting | Running(session: nat) | Returned(err: Option<Error>)

  /** A call of Create (empty key) or CreateWithIdempotency, with the variables its retries share. */
  datatype Call = Call(user: User, key: Str, attempt: nat, pc: Pc, stored: Option<User>, replayed: bool)

  /** The committed rows, and as history the committed inserts as (key, user id) in order and the
      ids ever deleted or updated. */
  datatype Rows = Rows(
    users: map<Str, User>, keys: map<Str, Str>,
    created: seq<(Str, Str)>, deleted: set<Str>, updated: set<Str>)

  /** The rows, the lock, the open transactions and the calls; and as history the calls of which an insert
      was committed, and those that lost the connection of a transaction that was ready to commit. */
  datatype System = System(
    rows: Rows, lock: Option<nat>, sessions: map<nat, Session>, nextSession: nat, calls: map<nat, Call>,
    landed: set<nat>, severed: set<nat>)

  datatype Step =
    | Arrive(call: nat, user: Option<User>, key: Str)
    | Begin(call: nat)
    | BeginFails(call: nat, error: Error)
    | Lock(call: nat)
    | Lookup(call: nat)
    | Scan(call: nat)
    | Count(call: nat)
    | InsertUser(call: nat)
    | InsertKey(call: nat)
    | Commit(call: nat)
    | Break(call: nat, error: Error, disconnected: bool)
    | GiveUp(call: nat, error: Error)
    | LateCommit(session: nat)
    | LateRollback(session: nat)
    | Delete(id: Str, forgotten: set<Str>)
    | Update(row: User)

  /** `isRetryableError`. */
  predicate Retryable(e: Error) {
    match e.Root()
    case EndOfFile => true
    case UnexpectedEndOfFile => true
    case Postgres(code) =>
      code in {"40001", "40P01", "55P03", "08000", "08001", "08003", "08004", "08006",
               "53300", "53400", "57P01", "57P02", "57P03", "58000", "58030", "XX000"}
    case _ => false
  }

  /** What the driver, the server or the context reports, wrapped or not: none of the repository's own sentinels. */
  predicate FromDriver(e: Error) {
    var root := e.Root();
    || root.Canceled? || root.DeadlineExceeded?
    || root.EndOfFile? || root.UnexpectedEndOfFile? || root.Postgres? || root.Other?
  }

  /** The checks made before the retry loop, and the time stamps checked inside it. */
  predicate Acceptable(user: Option<User>) {
    && user.Some?
    && user.value.id != [] && user.value.name != [] && user.value.email != []
    && user.value.createdAt.Some? && user.value.updatedAt.Some?
    && user.value.createdAt.value != ZERO_TIME && user.value.updatedAt.value != ZERO_TIME
  }

  /** The zero time.Time in nanoseconds since 1970. */
  const ZERO_TIME: int := -62_135_596_800_000_000_000

  // ---------------------------------------------------------------------------
  // Steps

  predicate InPhase(s: System, c: nat) {
    c in s.calls && s.calls[c].pc.Running? && s.calls[c].pc.session in s.sessions
  }

  function PhaseOf(s: System, c: nat): Phase
    requires InPhase(s, c)
  {
    s.sessions[s.calls[c].pc.session].phase
  }

  predicate Enabled(cfg: Config, s: System, step: Step) {
    match step
    case Arrive(c, _, _) => c !in s.calls
    case Begin(c) => c in s.calls && s.calls[c].pc == Waiting
    case BeginFails(c, e) => c in s.calls && s.calls[c].pc == Waiting && FromDriver(e)
    case GiveUp(c, e) =>
      c in s.calls && s.calls[c].pc == Waiting && s.calls[c].attempt > 0 && (e == Canceled || e == DeadlineExceeded)
    case Lock(c) => InPhase(s, c) && PhaseOf(s, c) == Begun && s.lock == None
    case Lookup(c) => InPhase(s, c) && PhaseOf(s, c) == Locked && s.calls[c].key != []
    case Scan(c) => InPhase(s, c) && PhaseOf(s, c).KeyFound?
    case Count(c) =>
      InPhase(s, c) && (PhaseOf(s, c) == KeyMissing || (PhaseOf(s, c) == Locked && s.calls[c].key == []))
    case InsertUser(c) => InPhase(s, c) && PhaseOf(s, c) == Counted
    case InsertKey(c) => InPhase(s, c) && PhaseOf(s, c) == UserStaged && s.calls[c].key != []
    case Commit(c) => InPhase(s, c) && s.sessions[s.calls[c].pc.session].Ready()
    case Break(c, e, _) => InPhase(s, c) && FromDriver(e)
    case LateCommit(x) => x in s.sessions && !s.sessions[x].connected && s.sessions[x].Ready()
    case LateRollback(x) => x in s.sessions && !s.sessions[x].connected
    case Delete(id, forgotten) =>
      id in s.rows.users && forall k :: k in forgotten ==> k in s.rows.keys && s.rows.keys[k] == id
    case Update(u) => u.id != [] && u.id in s.rows.users
  }

  /** What retryOperation does with an attempt's error. */
  function AfterError(cfg: Config, call: Call, e: Error): Call {
    if Retryable(e) && call.attempt + 1 < cfg.maxAttempts
    then call.(attempt := call.attempt + 1, pc := Waiting)
    else call.(pc := Returned(Some(e)))
  }

  /** The transaction is over; the lock goes with it. */
  function EndSession(s: System, x: nat): System {
    s.(sessions := s.sessions - {x}, lock := if s.lock == Some(x) then None else s.lock)
  }

  function SetPhase(s: System, c: nat, phase: Phase): System
    requires InPhase(s, c)
  {
    var x := s.calls[c].pc.session;
    s.(sessions := s.sessions[x := s.sessions[x].(phase := phase)])
  }

  /** The attempt ends with error `e` and its transaction is rolled back. */
  function Abort(cfg: Config, s: System, c: nat, e: Error): System
    requires InPhase(s, c)
  {
    var x := s.calls[c].pc.session;
    EndSession(s, x).(calls := s.calls[c := AfterError(cfg, s.calls[c], e)])
  }

  /** The staged rows become visible and the transaction ends. */
  function Publish(s: System, x: nat): System
    requires x in s.sessions
  {
    var t := s.sessions[x];
    if t.phase.Replaying? then EndSession(s, x)
    else
      EndSession(s, x).(
        rows := s.rows.(
          users := s.rows.users[t.user.id := t.user],
          keys := if t.key == [] then s.rows.keys else s.rows.keys[t.key := t.user.id],
          created := s.rows.created + [(t.key, t.user.id)]),
        landed := s.landed + {t.call})
  }

  function Apply(cfg: Config, s: System, step: Step): System
    requires Enabled(cfg, s, step)
  {
    match step
    case Arrive(c, user, key) =>
      s.(calls := s.calls[c := if Acceptable(user) then Call(user.value, key, 0, Waiting, None, false)
                               else Call(NOBODY, key, 0, Returned(Some(Invalid)), None, false)])
    case Begin(c) =>
      var call, x := s.calls[c], s.nextSession;
      s.(sessions := s.sessions[x := Session(call.user, call.key, Begun, c, true)],
         nextSession := x + 1,
         calls := s.calls[c := call.(pc := Running(x))])
    case BeginFails(c, e) => s.(calls := s.calls[c := AfterError(cfg, s.calls[c], e)])
    case GiveUp(c, e) => s.(calls := s.calls[c := s.calls[c].(pc := Returned(Some(e)))])
    case Lock(c) => SetPhase(s, c, Locked).(lock := Some(s.calls[c].pc.session))
    case Lookup(c) =>
      var key := s.calls[c].key;
      SetPhase(s, c, if key in s.rows.keys then KeyFound(s.rows.keys[key]) else KeyMissing)
    case Scan(c) =>
      var id := PhaseOf(s, c).id;
      if id in s.rows.users then
        SetPhase(s, c, Replaying(s.rows.users[id])).(
          calls := s.calls[c := s.calls[c].(stored := Some(s.rows.users[id]), replayed := true)])
      else Abort(cfg, s, c, NotFound)
    case Count(c) => if |s.rows.users| >= cfg.maxUsers then Abort(cfg, s, c, Capacity) else SetPhase(s, c, Counted)
    case InsertUser(c) =>
      if s.calls[c].user.id in s.rows.users then Abort(cfg, s, c, AlreadyExists) else SetPhase(s, c, UserStaged)
    case InsertKey(c) =>
      if s.calls[c].key in s.rows.keys then Abort(cfg, s, c, Wrapped(Postgres("23505"))) else SetPhase(s, c, KeyStaged)
    case Commit(c) =>
      var call, x := s.calls[c], s.calls[c].pc.session;
      var call' := if s.sessions[x].phase.Replaying? then call else call.(stored := Some(call.user), replayed := false);
      Publish(s, x).(calls := s.calls[c := call'.(pc := Returned(None))])
    case Break(c, e, disconnected) =>
      if disconnected then
        var x := s.calls[c].pc.session;
        s.(sessions := s.sessions[x := s.sessions[x].(connected := false)],
           calls := s.calls[c := AfterError(cfg, s.calls[c], e)],
           severed := if s.sessions[x].Ready() then s.severed + {c} else s.severed)
      else Abort(cfg, s, c, e)
    case LateCommit(x) => Publish(s, x)
    case LateRollback(x) => EndSession(s, x)
    case Delete(id, forgotten) =>
      s.(rows := s.rows.(
           users := s.rows.users - {id}, keys := s.rows.keys - forgotten, deleted := s.rows.deleted + {id}))
    case Update(u) => s.(rows := s.rows.(users := s.rows.users[u.id := u], updated := s.rows.updated + {u.id}))
  }

  const NOBODY := User([], [], [], 0, None, None)

  /** A step that is not enabled does not happen. */
  function Next(cfg: Config, s: System, step: Step): System {
    if Enabled(cfg, s, step) then Apply(cfg, s, step) else s
  }

  function Reach(cfg: Config, s: System, steps: seq<Step>, k: nat): System
    requires k <= |steps|
  {
    if k == 0 then s else Next(cfg, Reach(cfg, s, steps, k - 1), steps[k - 1])
  }

  // ---------------------------------------------------------------------------
  // What every step keeps

  /** The committed rows agree with the history of inserts. */
  ghost predicate RowsOk(r: Rows) {
    && (forall id :: id in r.users ==> r.users[id].id == id)
    && (forall k :: k in r.keys ==> k != [] && (k, r.keys[k]) in r.created)
    && (forall i :: 0 <= i < |r.created| ==> EntryOk(r, r.created[i]))
    && OncePerKey(r)
  }

  /** An inserted user that was never deleted is there, and its key names it. */
  predicate EntryOk(r: Rows, entry: (Str, Str)) {
    entry.1 !in r.deleted ==>
      entry.1 in r.users && (entry.0 != [] ==> entry.0 in r.keys && r.keys[entry.0] == entry.1)
  }

  /** A key is used for a second insert only after the user of the first was deleted. */
  predicate OncePerKey(r: Rows) {
    forall i, j :: 0 <= i < j < |r.created| && r.created[i].0 == r.created[j].0 != [] ==> r.created[i].1 in r.deleted
  }

  /** `u` is the committed row of its id, unless that was deleted or updated. */
  predicate Faithful(r: Rows, u: User) {
    u.id !in r.deleted && u.id !in r.updated ==> u.id in r.users && r.users[u.id] == u
  }

  predicate PhaseOk(cfg: Config, r: Rows, t: Session) {
    match t.phase
    case Begun => true
    case Locked => true
    case KeyFound(id) =>
      t.key != [] && (t.key, id) in r.created && (id in r.users ==> t.key in r.keys && r.keys[t.key] == id)
    case Replaying(u) => t.key != [] && (t.key, u.id) in r.created && Faithful(r, u)
    case KeyMissing => t.key != [] && t.key !in r.keys
    case Counted => |r.users| < cfg.maxUsers && t.key !in r.keys
    case UserStaged => |r.users| < cfg.maxUsers && t.key !in r.keys && t.user.id !in r.users
    case KeyStaged => t.key != [] && |r.users| < cfg.maxUsers && t.key !in r.keys && t.user.id !in r.users
  }

  /** Only the lock holder is past Begun, and what it has found out still holds. */
  predicate SessionOk(cfg: Config, s: System, x: nat)
    requires x in s.sessions
  {
    && x < s.nextSession && s.sessions[x].user.id != []
    && (s.sessions[x].phase != Begun ==> s.lock == Some(x)) && PhaseOk(cfg, s.rows, s.sessions[x])
  }

  predicate CallOk(s: System, c: nat)
    requires c in s.calls
  {
    var call := s.calls[c];
    match call.pc
    case Waiting => call.user.id != []
    case Running(x) =>
      && x in s.sessions && s.sessions[x].call == c && s.sessions[x].connected
      && s.sessions[x].user == call.user && s.sessions[x].key == call.key
      && (s.sessions[x].phase.Replaying? ==> call.stored == Some(s.sessions[x].phase.u) && call.replayed)
    case Returned(err) => err == None ==> ReplyOk(s.rows, call)
  }

  /** A nil-error return: the stored user is one inserted under the call's key, and its own unless replayed. */
  predicate ReplyOk(r: Rows, call: Call) {
    && call.stored.Some?
    && (call.key, call.stored.value.id) in r.created
    && Faithful(r, call.stored.value)
    && (!call.replayed ==> call.stored.value == call.user)
    && (call.key == [] ==> !call.replayed)
  }

  predicate LockOk(s: System) {
    s.lock.Some? ==> s.lock.value in s.sessions && s.sessions[s.lock.value].phase != Begun
  }

  ghost predicate Invariant(cfg: Config, s: System, bound: int) {
    && |s.rows.users| <= bound && cfg.maxUsers <= bound
    && RowsOk(s.rows)
    && LockOk(s)
    && (forall x :: x in s.sessions ==> SessionOk(cfg, s, x))
    && (forall c :: c in s.calls ==> CallOk(s, c))
  }

  /** A database with rows already in it and nothing going on. */
  ghost predicate Init(s: System) {
    && RowsOk(s.rows) && s.rows.deleted == {} && s.rows.updated == {}
    && s.lock == None && s.sessions == map[] && s.calls == map[]
    && s.landed == {} && s.severed == {}
  }

  lemma BeginKeeps(cfg: Config, s: System, bound: int, c: nat)
    requires Invariant(cfg, s, bound) && Enabled(cfg, s, Begin(c))
    ensures Invariant(cfg, Apply(cfg, s, Begin(c)), bound)
  {
    var s' := Apply(cfg, s, Begin(c));
    forall x | x in s'.sessions ensures SessionOk(cfg, s', x) {
      if x in s.sessions {
        assert SessionOk(cfg, s, x);
      }
    }
    forall d | d in s'.calls ensures CallOk(s', d) {
      assert d in s.calls && CallOk(s, d);
      assert s.nextSession in s.sessions ==> SessionOk(cfg, s, s.nextSession);
    }
  }

  /** A call that is not running may be given any other such state with a non-nil error, or start waiting. */
  lemma CallChangeKeeps(cfg: Config, s: System, bound: int, c: nat, call: Call)
    requires Invariant(cfg, s, bound) && (c in s.calls ==> s.calls[c].pc == Waiting)
    requires (call.pc == Waiting && call.user.id != []) || (call.pc.Returned? && call.pc.err.Some?)
    ensures Invariant(cfg, s.(calls := s.calls[c := call]), bound)
  {
    var s' := s.(calls := s.calls[c := call]);
    forall x | x in s'.sessions ensures SessionOk(cfg, s', x) {
      assert SessionOk(cfg, s, x);
    }
    forall d | d in s'.calls ensures CallOk(s', d) {
      assert d != c ==> CallOk(s, d);
    }
  }

  /** The lock holder moves on to a phase whose condition holds. */
  lemma SetPhaseKeeps(cfg: Config, s: System, bound: int, c: nat, phase: Phase)
    requires Invariant(cfg, s, bound) && InPhase(s, c)
    requires var x := s.calls[c].pc.session;
             (s.lock == Some(x) || s.lock == None) && PhaseOk(cfg, s.rows, s.sessions[x].(phase := phase))
    requires phase != Begun && !phase.Replaying?
    ensures Invariant(cfg, SetPhase(s, c, phase).(lock := Some(s.calls[c].pc.session)), bound)
  {
    var x := s.calls[c].pc.session;
    var s' := SetPhase(s, c, phase).(lock := Some(x));
    assert CallOk(s, c);
    forall y | y in s'.sessions ensures SessionOk(cfg, s', y) {
      assert SessionOk(cfg, s, y);
    }
    forall d | d in s'.calls ensures CallOk(s', d) {
      assert CallOk(s, d);
    }
  }

  lemma ScanKeeps(cfg: Config, s: System, bound: int, c: nat)
    requires Invariant(cfg, s, bound) && Enabled(cfg, s, Scan(c)) && PhaseOf(s, c).id in s.rows.users
    ensures Invariant(cfg, Apply(cfg, s, Scan(c)), bound)
  {
    var s' := Apply(cfg, s, Scan(c));
    var x := s.calls[c].pc.session;
    assert CallOk(s, c) && SessionOk(cfg, s, x);
    forall y | y in s'.sessions ensures SessionOk(cfg, s', y) {
      assert SessionOk(cfg, s, y);
    }
    forall d | d in s'.calls ensures CallOk(s', d) {
      assert CallOk(s, d);
    }
  }

  /** A transaction ends without effect, and its call, if any, goes on to wait or return an error. */
  lemma AbortKeeps(cfg: Config, s: System, bound: int, c: nat, e: Error)
    requires Invariant(cfg, s, bound) && InPhase(s, c)
    ensures Invariant(cfg, Abort(cfg, s, c, e), bound)
  {
    var s' := Abort(cfg, s, c, e);
    assert CallOk(s, c);
    forall y | y in s'.sessions ensures SessionOk(cfg, s', y) {
      assert SessionOk(cfg, s, y);
    }
    forall d | d in s'.calls ensures CallOk(s', d) {
      assert CallOk(s, d);
    }
  }

  lemma DisconnectKeeps(cfg: Config, s: System, bound: int, c: nat, e: Error)
    requires Invariant(cfg, s, bound) && InPhase(s, c) && FromDriver(e)
    ensures Invariant(cfg, Apply(cfg, s, Break(c, e, true)), bound)
  {
    var s' := Apply(cfg, s, Break(c, e, true));
    assert CallOk(s, c);
    forall y | y in s'.sessions ensures SessionOk(cfg, s', y) {
      assert SessionOk(cfg, s, y);
    }
    forall d | d in s'.calls ensures CallOk(s', d) {
      assert CallOk(s, d);
    }
  }

  lemma LateRollbackKeeps(cfg: Config, s: System, bound: int, x: nat)
    requires Invariant(cfg, s, bound) && x in s.sessions && !s.sessions[x].connected
    ensures Invariant(cfg, EndSession(s, x), bound)
  {
    var s' := EndSession(s, x);
    forall y | y in s'.sessions ensures SessionOk(cfg, s', y) {
      assert SessionOk(cfg, s, y);
    }
    forall d | d in s'.calls ensures CallOk(s', d) {
      assert CallOk(s, d);
    }
  }

  // Committing: the rows, the other transactions and the other calls.

  lemma PublishRows(cfg: Config, s: System, bound: int, x: nat)
    requires Invariant(cfg, s, bound) && x in s.sessions && s.sessions[x].Ready()
    ensures |Publish(s, x).rows.users| <= bound && RowsOk(Publish(s, x).rows)
  {
    var s', t := Publish(s, x), s.sessions[x];
    assert SessionOk(cfg, s, x);
    if !t.phase.Replaying? {
      assert (t.key, t.user.id) == s'.rows.created[|s.rows.created|];
      forall k | k in s'.rows.keys ensures k != [] && (k, s'.rows.keys[k]) in s'.rows.created {
        if k in s.rows.keys && k != t.key {
          assert (k, s.rows.keys[k]) in s.rows.created;
        }
      }
      forall i | 0 <= i < |s'.rows.created| ensures EntryOk(s'.rows, s'.rows.created[i]) {
        if i < |s.rows.created| {
          assert EntryOk(s.rows, s.rows.created[i]);
        }
      }
      forall i, j | 0 <= i < j < |s'.rows.created| && s'.rows.created[i].0 == s'.rows.created[j].0 != []
        ensures s'.rows.created[i].1 in s'.rows.deleted
      {
        assert EntryOk(s.rows, s.rows.created[i]);
      }
    }
  }

  lemma PublishSessions(cfg: Config, s: System, bound: int, x: nat)
    requires Invariant(cfg, s, bound) && x in s.sessions && s.sessions[x].Ready()
    ensures LockOk(Publish(s, x))
    ensures forall y :: y in Publish(s, x).sessions ==> SessionOk(cfg, Publish(s, x), y)
  {
    assert SessionOk(cfg, s, x);
    forall y | y in Publish(s, x).sessions ensures SessionOk(cfg, Publish(s, x), y) {
      assert SessionOk(cfg, s, y);
    }
  }

  lemma PublishCalls(cfg: Config, s: System, bound: int, x: nat, d: nat)
    requires Invariant(cfg, s, bound) && x in s.sessions && s.sessions[x].Ready()
    requires d in s.calls && s.calls[d].pc != Running(x)
    ensures CallOk(Publish(s, x), d)
  {
    assert SessionOk(cfg, s, x) && CallOk(s, d);
  }

  lemma CommitKeeps(cfg: Config, s: System, bound: int, c: nat)
    requires Invariant(cfg, s, bound) && Enabled(cfg, s, Commit(c))
    ensures Invariant(cfg, Apply(cfg, s, Commit(c)), bound)
  {
    var x := s.calls[c].pc.session;
    var p, s' := Publish(s, x), Apply(cfg, s, Commit(c));
    assert CallOk(s, c) && SessionOk(cfg, s, x);
    PublishRows(cfg, s, bound, x);
    PublishSessions(cfg, s, bound, x);
    forall y | y in s'.sessions ensures SessionOk(cfg, s', y) {
      assert SessionOk(cfg, p, y);
    }
    forall d | d in s'.calls ensures CallOk(s', d) {
      if d != c {
        assert CallOk(s, d);
        PublishCalls(cfg, s, bound, x, d);
      } else {
        CommitReplies(cfg, s, bound, c);
      }
    }
  }

  lemma CommitReplies(cfg: Config, s: System, bound: int, c: nat)
    requires Invariant(cfg, s, bound) && Enabled(cfg, s, Commit(c))
    ensures ReplyOk(Apply(cfg, s, Commit(c)).rows, Apply(cfg, s, Commit(c)).calls[c])
  {
    var x := s.calls[c].pc.session;
    var s' := Apply(cfg, s, Commit(c));
    assert CallOk(s, c) && SessionOk(cfg, s, x);
    if !s.sessions[x].phase.Replaying? {
      assert s'.rows.created[|s.rows.created|] == (s.calls[c].key, s.calls[c].user.id);
    }
  }

  lemma LateCommitKeeps(cfg: Config, s: System, bound: int, x: nat)
    requires Invariant(cfg, s, bound) && Enabled(cfg, s, LateCommit(x))
    ensures Invariant(cfg, Publish(s, x), bound)
  {
    PublishRows(cfg, s, bound, x);
    PublishSessions(cfg, s, bound, x);
    forall d | d in s.calls ensures CallOk(Publish(s, x), d) {
      assert CallOk(s, d);
      PublishCalls(cfg, s, bound, x, d);
    }
  }

  lemma DeleteKeeps(cfg: Config, s: System, bound: int, id: Str, forgotten: set<Str>)
    requires Invariant(cfg, s, bound) && Enabled(cfg, s, Delete(id, forgotten))
    ensures Invariant(cfg, Apply(cfg, s, Delete(id, forgotten)), bound)
  {
    var s' := Apply(cfg, s, Delete(id, forgotten));
    assert s'.rows.users.Keys == s.rows.users.Keys - {id};
    forall i | 0 <= i < |s'.rows.created| ensures EntryOk(s'.rows, s'.rows.created[i]) {
      assert EntryOk(s.rows, s.rows.created[i]);
    }
    forall y | y in s'.sessions ensures SessionOk(cfg, s', y) {
      assert SessionOk(cfg, s, y);
    }
    forall d | d in s'.calls ensures CallOk(s', d) {
      assert CallOk(s, d);
    }
  }

  lemma UpdateKeeps(cfg: Config, s: System, bound: int, u: User)
    requires Invariant(cfg, s, bound) && Enabled(cfg, s, Update(u))
    ensures Invariant(cfg, Apply(cfg, s, Update(u)), bound)
  {
    var s' := Apply(cfg, s, Update(u));
    assert s'.rows.users.Keys == s.rows.users.Keys;
    forall i | 0 <= i < |s'.rows.created| ensures EntryOk(s'.rows, s'.rows.created[i]) {
      assert EntryOk(s.rows, s.rows.created[i]);
    }
    forall y | y in s'.sessions ensures SessionOk(cfg, s', y) {
      assert SessionOk(cfg, s, y);
    }
    forall d | d in s'.calls ensures CallOk(s', d) {
      assert CallOk(s, d);
    }
  }

  lemma StatementKeeps(cfg: Config, s: System, bound: int, step: Step)
    requires Invariant(cfg, s, bound) && Enabled(cfg, s, step)
    requires step.Lock? || step.Lookup? || step.Scan? || step.Count? || step.InsertUser? || step.InsertKey?
    ensures Invariant(cfg, Apply(cfg, s, step), bound)
  {
    var c := step.call;
    var x := s.calls[c].pc.session;
    assert CallOk(s, c) && SessionOk(cfg, s, x);
    match step
    case Lock(_) => SetPhaseKeeps(cfg, s, bound, c, Locked);
    case Lookup(_) =>
      var key := s.calls[c].key;
      SetPhaseKeeps(cfg, s, bound, c, if key in s.rows.keys then KeyFound(s.rows.keys[key]) else KeyMissing);
    case Scan(_) =>
      if PhaseOf(s, c).id in s.rows.users {
        ScanKeeps(cfg, s, bound, c);
      } else {
        AbortKeeps(cfg, s, bound, c, NotFound);
      }
    case Count(_) =>
      if |s.rows.users| >= cfg.maxUsers {
        AbortKeeps(cfg, s, bound, c, Capacity);
      } else {
        SetPhaseKeeps(cfg, s, bound, c, Counted);
      }
    case InsertUser(_) =>
      if s.calls[c].user.id in s.rows.users {
        AbortKeeps(cfg, s, bound, c, AlreadyExists);
      } else {
        SetPhaseKeeps(cfg, s, bound, c, UserStaged);
      }
    case InsertKey(_) => SetPhaseKeeps(cfg, s, bound, c, KeyStaged);
  }

  lemma NextKeeps(cfg: Config, s: System, bound: int, step: Step)
    requires Invariant(cfg, s, bound)
    ensures Invariant(cfg, Next(cfg, s, step), bound)
  {
    if Enabled(cfg, s, step) {
      match step
      case Arrive(c, user, key) => CallChangeKeeps(cfg, s, bound, c, Apply(cfg, s, step).calls[c]);
      case Begin(c) => BeginKeeps(cfg, s, bound, c);
      case BeginFails(c, e) => CallChangeKeeps(cfg, s, bound, c, AfterError(cfg, s.calls[c], e));
      case GiveUp(c, e) => CallChangeKeeps(cfg, s, bound, c, s.calls[c].(pc := Returned(Some(e))));
      case Commit(c) => CommitKeeps(cfg, s, bound, c);
      case Break(c, e, disconnected) =>
        if disconnected {
          DisconnectKeeps(cfg, s, bound, c, e);
        } else {
          AbortKeeps(cfg, s, bound, c, e);
        }
      case LateCommit(x) => LateCommitKeeps(cfg, s, bound, x);
      case LateRollback(x) => LateRollbackKeeps(cfg, s, bound, x);
      case Delete(id, forgotten) => DeleteKeeps(cfg, s, bound, id, forgotten);
      case Update(u) => UpdateKeeps(cfg, s, bound, u);
      case _ => StatementKeeps(cfg, s, bound, step);
    }
  }
}
