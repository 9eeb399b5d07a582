/**
 Building blocks for concrete runs of the PostgreSQL protocol: one call at a time in a
 database where nothing else goes on.
 */
module PgScenarios {
  import opened Base
  import opened PgCreate
  import PgCreateRuns

  // ---------------------------------------------------------------------------
  // Runs, one step after another

  function Final(cfg: Config, s: System, steps: seq<Step>): System {
    Reach(cfg, s, steps, |steps|)
  }

  lemma {:induction false} SamePrefix(cfg: Config, s: System, steps: seq<Step>, step: Step, k: nat)
    requires k <= |steps|
    ensures Reach(cfg, s, steps + [step], k) == Reach(cfg, s, steps, k)
  {
    if k > 0 {
      SamePrefix(cfg, s, steps, step, k - 1);
    }
  }

  lemma Extend(cfg: Config, s: System, steps: seq<Step>, step: Step) returns (r: seq<Step>)
    ensures r == steps + [step] && Final(cfg, s, r) == Next(cfg, Final(cfg, s, steps), step)
  {
    r := steps + [step];
    SamePrefix(cfg, s, steps, step, |steps|);
    assert Reach(cfg, s, r, |r|) == Next(cfg, Reach(cfg, s, r, |steps|), r[|steps|]);
  }

  /** `r` goes on from `steps` without touching the rows. */
  predicate Continues(steps: seq<Step>, r: seq<Step>) {
    && |steps| <= |r| && r[..|steps|] == steps
    && forall i :: |steps| <= i < |r| ==> PgCreateRuns.Silent(r[i])
  }

  // ---------------------------------------------------------------------------
  // One transaction alone

  predicate Quiet(q: System) {
    q.lock == None && q.sessions == map[]
  }

  /** Only call `c` is at work, in a transaction at `phase`. */
  function Alone(q: System, c: nat, call: Call, phase: Phase): System {
    var x := q.nextSession;
    q.(lock := if phase == Begun then None else Some(x),
       sessions := map[x := Session(call.user, call.key, phase, c, true)],
       nextSession := x + 1, calls := q.calls[c := call.(pc := Running(x))])
  }

  lemma Arrives(cfg: Config, q: System, c: nat, u: User, key: Str)
    requires c !in q.calls && Acceptable(Some(u))
    ensures Next(cfg, q, Arrive(c, Some(u), key)) == q.(calls := q.calls[c := Call(u, key, 0, Waiting, None, false)])
  {
  }

  lemma Begins(cfg: Config, q: System, c: nat)
    requires Quiet(q) && c in q.calls && q.calls[c].pc == Waiting
    ensures Next(cfg, q, Begin(c)) == Alone(q, c, q.calls[c], Begun)
  {
  }

  /** A statement that succeeds moves the transaction on. */
  lemma MovesOn(q: System, c: nat, call: Call, phase: Phase, next: Phase)
    requires phase != Begun && next != Begun
    ensures InPhase(Alone(q, c, call, phase), c) && PhaseOf(Alone(q, c, call, phase), c) == phase
    ensures SetPhase(Alone(q, c, call, phase), c, next) == Alone(q, c, call, next)
  {
    assert SetPhase(Alone(q, c, call, phase), c, next).sessions == Alone(q, c, call, next).sessions;
  }

  lemma Locks(cfg: Config, q: System, c: nat, call: Call)
    ensures Next(cfg, Alone(q, c, call, Begun), Lock(c)) == Alone(q, c, call, Locked)
  {
    assert InPhase(Alone(q, c, call, Begun), c);
    assert SetPhase(Alone(q, c, call, Begun), c, Locked).sessions == Alone(q, c, call, Locked).sessions;
  }

  lemma LooksUp(cfg: Config, q: System, c: nat, call: Call)
    requires call.key != []
    ensures Next(cfg, Alone(q, c, call, Locked), Lookup(c))
            == Alone(q, c, call, if call.key in q.rows.keys then KeyFound(q.rows.keys[call.key]) else KeyMissing)
  {
    MovesOn(q, c, call, Locked, if call.key in q.rows.keys then KeyFound(q.rows.keys[call.key]) else KeyMissing);
  }

  lemma CountsRoom(cfg: Config, q: System, c: nat, call: Call)
    requires |q.rows.users| < cfg.maxUsers
    ensures call.key == [] ==> Next(cfg, Alone(q, c, call, Locked), Count(c)) == Alone(q, c, call, Counted)
    ensures Next(cfg, Alone(q, c, call, KeyMissing), Count(c)) == Alone(q, c, call, Counted)
  {
    MovesOn(q, c, call, Locked, Counted);
    MovesOn(q, c, call, KeyMissing, Counted);
  }

  lemma InsertsUser(cfg: Config, q: System, c: nat, call: Call)
    requires call.user.id !in q.rows.users
    ensures Next(cfg, Alone(q, c, call, Counted), InsertUser(c)) == Alone(q, c, call, UserStaged)
  {
    MovesOn(q, c, call, Counted, UserStaged);
  }

  lemma InsertsKey(cfg: Config, q: System, c: nat, call: Call)
    requires call.key != [] && call.key !in q.rows.keys
    ensures Next(cfg, Alone(q, c, call, UserStaged), InsertKey(c)) == Alone(q, c, call, KeyStaged)
  {
    MovesOn(q, c, call, UserStaged, KeyStaged);
  }

  /** With no room, the call returns ErrCapacity. */
  lemma CountRefuses(cfg: Config, q: System, c: nat, call: Call)
    requires |q.rows.users| >= cfg.maxUsers && call.key == []
    ensures var s' := Next(cfg, Alone(q, c, call, Locked), Count(c));
            c in s'.calls && s'.calls[c] == call.(pc := Returned(Some(Capacity))) && s'.landed == q.landed
  {
    MovesOn(q, c, call, Locked, Counted);
  }

  /** With its id taken, it returns ErrAlreadyExists. */
  lemma InsertRefuses(cfg: Config, q: System, c: nat, call: Call)
    requires call.user.id in q.rows.users
    ensures var s' := Next(cfg, Alone(q, c, call, Counted), InsertUser(c));
            c in s'.calls && s'.calls[c] == call.(pc := Returned(Some(AlreadyExists))) && s'.landed == q.landed
  {
    MovesOn(q, c, call, Counted, UserStaged);
  }

  /** A new call that waits for its first attempt. */
  function Waiter(u: User, key: Str): Call {
    Call(u, key, 0, Waiting, None, false)
  }

  function ArrivedIn(q: System, c: nat, u: User, key: Str): System {
    q.(calls := q.calls[c := Waiter(u, key)])
  }

  /** What is staged is committed, and the database is quiet again. */
  lemma CommitsAlone(cfg: Config, q: System, c: nat, call: Call)
    requires Quiet(q) && c in q.calls && call.key == []
    ensures var s' := Next(cfg, Alone(q, c, call, UserStaged), Commit(c));
            && Quiet(s') && s'.rows.users == q.rows.users[call.user.id := call.user] && s'.rows.keys == q.rows.keys
            && s'.calls.Keys == q.calls.Keys
  {
    MovesOn(q, c, call, UserStaged, KeyStaged);
  }

  /** From waiting to holding the lock. */
  lemma RunToLocked(cfg: Config, s: System, steps: seq<Step>, c: nat) returns (r: seq<Step>)
    requires var q := Final(cfg, s, steps); Quiet(q) && c in q.calls && q.calls[c].pc == Waiting
    ensures var q := Final(cfg, s, steps); Final(cfg, s, r) == Alone(q, c, q.calls[c], Locked)
    ensures r == steps + [Begin(c), Lock(c)] && Continues(steps, r)
  {
    var q := Final(cfg, s, steps);
    Begins(cfg, q, c);
    r := Extend(cfg, s, steps, Begin(c));
    Locks(cfg, q, c, q.calls[c]);
    r := Extend(cfg, s, r, Lock(c));
  }

  /** From arriving to holding the lock. */
  lemma RunFromArrival(cfg: Config, s: System, steps: seq<Step>, c: nat, u: User, key: Str) returns (r: seq<Step>)
    requires var q := Final(cfg, s, steps); Quiet(q) && c !in q.calls && Acceptable(Some(u))
    ensures Final(cfg, s, r) == Alone(ArrivedIn(Final(cfg, s, steps), c, u, key), c, Waiter(u, key), Locked)
    ensures r == steps + [Arrive(c, Some(u), key), Begin(c), Lock(c)] && Continues(steps, r)
  {
    Arrives(cfg, Final(cfg, s, steps), c, u, key);
    r := Extend(cfg, s, steps, Arrive(c, Some(u), key));
    r := RunToLocked(cfg, s, r, c);
  }

  /** An unkeyed create, from holding the lock to having its user row staged. */
  lemma RunToStaged(cfg: Config, s: System, steps: seq<Step>, q: System, c: nat, call: Call) returns (r: seq<Step>)
    requires Final(cfg, s, steps) == Alone(q, c, call, Locked) && call.key == []
    requires |q.rows.users| < cfg.maxUsers && call.user.id !in q.rows.users
    ensures Final(cfg, s, r) == Alone(q, c, call, UserStaged)
    ensures r == steps + [Count(c), InsertUser(c)] && Continues(steps, r)
  {
    CountsRoom(cfg, q, c, call);
    r := Extend(cfg, s, steps, Count(c));
    InsertsUser(cfg, q, c, call);
    r := Extend(cfg, s, r, InsertUser(c));
  }

  /** A create under a key without a row, from holding the lock to being ready to commit. */
  lemma RunToKeyStaged(cfg: Config, s: System, steps: seq<Step>, q: System, c: nat, call: Call) returns (r: seq<Step>)
    requires Final(cfg, s, steps) == Alone(q, c, call, Locked) && call.key != [] && call.key !in q.rows.keys
    requires |q.rows.users| < cfg.maxUsers && call.user.id !in q.rows.users
    ensures Final(cfg, s, r) == Alone(q, c, call, KeyStaged)
    ensures r == steps + [Lookup(c), Count(c), InsertUser(c), InsertKey(c)] && Continues(steps, r)
  {
    LooksUp(cfg, q, c, call);
    r := Extend(cfg, s, steps, Lookup(c));
    CountsRoom(cfg, q, c, call);
    r := Extend(cfg, s, r, Count(c));
    InsertsUser(cfg, q, c, call);
    r := Extend(cfg, s, r, InsertUser(c));
    InsertsKey(cfg, q, c, call);
    r := Extend(cfg, s, r, InsertKey(c));
  }

  // ---------------------------------------------------------------------------
  // A database with one user, created under a key

  const KEY: Str := [7]

  const STOCKED :=
    System(Rows(map[ANN.id := ANN], map[KEY := ANN.id], [(KEY, ANN.id)], {}, {}), None, map[], 0, map[], {}, {})

  lemma StockedIsInit()
    ensures Init(STOCKED)
  {
    assert STOCKED.rows.created[0] == (KEY, ANN.id);
  }

  /** The rows once that user is deleted, and maybe the key's row with it. */
  function WithoutAnn(forgotten: set<Str>): Rows {
    Rows(map[], STOCKED.rows.keys - forgotten, STOCKED.rows.created, {ANN.id}, {})
  }

  lemma DeletesAnn(cfg: Config, s: System, forgotten: set<Str>)
    requires s.rows == STOCKED.rows && forgotten <= {KEY}
    ensures Next(cfg, s, Delete(ANN.id, forgotten)) == s.(rows := WithoutAnn(forgotten))
  {
    assert s.rows.users - {ANN.id} == map[];
  }
}
