/**
 CreateUser called through the client's retry interceptor. An attempt may never reach the
 server, or be executed there and lose its reply; each execution proposes a user with an id
 of its own; other clients use the store in between.
 */
module ClientCreate {
  import opened Base
  import opened Memory
  import opened MemoryRuns
  import opened RetryLoops
  import opened Rpc

  /** One attempt: the context before and during its wait, its jitter, what other clients do first, the user
      the server would create, whether the request gets there, and the code the client sees if the reply is lost. */
  datatype Try = Try(
    before: bool, during: bool, roll: nat, others: seq<Op>, user: User, delivered: bool, lost: Option<Code>)

  /** A request that does not arrive is seen to fail, and a lost reply is not seen as success. */
  predicate Plausible(a: Try) {
    (!a.delivered ==> a.lost.Some?) && a.lost != Some(Code.OK) && a.user.id != []
  }

  function Others(t: Tracked, ops: seq<Op>): Tracked
    decreases |ops|
  {
    if ops == [] then t else Others(Next(t, ops[0]), ops[1..])
  }

  function Request(a: Try, maxUsers: int, key: Str): Op {
    Op.CreateKeyed(Live, Some(a.user), maxUsers, key)
  }

  /** The code CreateUser answers with. */
  function ReplyCode(r: Reply): Code {
    if r.Failed? then MapStorageError(r.error) else Code.OK
  }

  /** The store after an attempt. */
  function Served(t: Tracked, a: Try, maxUsers: int, key: Str): Tracked {
    var u := Others(t, a.others);
    if a.delivered then Next(u, Request(a, maxUsers, key)) else u
  }

  /** The server's reply to a delivered attempt. */
  function Answer(t: Tracked, a: Try, maxUsers: int, key: Str): Reply {
    KeyedReply(Others(t, a.others).mem, Request(a, maxUsers, key))
  }

  function Seen(t: Tracked, a: Try, maxUsers: int, key: Str): Code {
    if a.lost.Some? then a.lost.value else ReplyCode(Answer(t, a, maxUsers, key))
  }

  /** Whether the attempt creates a user. */
  predicate Creates(t: Tracked, a: Try, maxUsers: int, key: Str) {
    a.delivered && var r := Answer(t, a, maxUsers, key); r.Stored? && !r.replayed
  }

  predicate NoDeletes(ops: seq<Op>) {
    forall i :: 0 <= i < |ops| ==> !ops[i].Delete?
  }

  lemma {:induction false} OthersKeep(t: Tracked, ops: seq<Op>, key: Str, id: Str)
    requires Valid(t)
    ensures Valid(Others(t, ops))
    ensures NoDeletes(ops) && key != [] && Bound(t.mem, key, id) ==> Bound(Others(t, ops).mem, key, id)
    decreases |ops|
  {
    if ops != [] {
      NextKeepsValid(t, ops[0]);
      if NoDeletes(ops) && key != [] && Bound(t.mem, key, id) {
        assert !ops[0].Delete?;
        EffectKeepsBinding(t.mem, ops[0], key, id);
      }
      OthersKeep(Next(t, ops[0]), ops[1..], key, id);
    }
  }

  /** Once the key is bound to a live user, no attempt creates another. */
  lemma BoundKeyIsReplayed(t: Tracked, a: Try, maxUsers: int, key: Str, id: Str)
    requires Valid(t) && key != [] && Bound(t.mem, key, id) && NoDeletes(a.others)
    ensures !Creates(t, a, maxUsers, key)
    ensures Valid(Served(t, a, maxUsers, key)) && Bound(Served(t, a, maxUsers, key).mem, key, id)
  {
    OthersKeep(t, a.others, key, id);
    var u, op := Others(t, a.others), Request(a, maxUsers, key);
    NextKeepsValid(u, op);
    EffectKeepsBinding(u.mem, op, key, id);
  }

  lemma CreationBinds(t: Tracked, a: Try, maxUsers: int, key: Str)
    requires Valid(t) && key != [] && Creates(t, a, maxUsers, key)
    ensures Bound(Served(t, a, maxUsers, key).mem, key, a.user.id)
  {
  }

  lemma ServedIsValid(t: Tracked, a: Try, maxUsers: int, key: Str)
    requires Valid(t)
    ensures Valid(Served(t, a, maxUsers, key))
  {
    OthersKeep(t, a.others, key, []);
    NextKeepsValid(Others(t, a.others), Request(a, maxUsers, key));
  }

  /** A success the client sees is the user its key names. */
  lemma SuccessIsTheKeysUser(t: Tracked, a: Try, maxUsers: int, key: Str)
    requires key != [] && Plausible(a) && Seen(t, a, maxUsers, key) == Code.OK
    ensures var s, r := Served(t, a, maxUsers, key).mem, Answer(t, a, maxUsers, key);
            r.Stored? && key in s.idem && s.idem[key] in s.users && r.user == s.users[s.idem[key]]
  {
  }

  predicate InUse(t: Tracked, key: Str) {
    key in t.mem.idem && t.mem.idem[key] in t.mem.users
  }

  /** At most one user was made, the key names it, and none was made if the key was in use from the start. */
  predicate MadeOnce(start: Tracked, key: Str, t: Tracked, made: seq<Str>) {
    && |made| <= 1
    && (|made| == 1 ==> Bound(t.mem, key, made[0]))
    && (InUse(start, key) ==> made == [] && Bound(t.mem, key, start.mem.idem[key]))
  }

  function Made(t: Tracked, a: Try, maxUsers: int, key: Str, made: seq<Str>): seq<Str> {
    if Creates(t, a, maxUsers, key) then made + [a.user.id] else made
  }

  lemma AttemptKeepsMadeOnce(start: Tracked, t: Tracked, a: Try, maxUsers: int, key: Str, made: seq<Str>)
    requires Valid(t) && key != [] && NoDeletes(a.others) && MadeOnce(start, key, t, made)
    ensures MadeOnce(start, key, Served(t, a, maxUsers, key), Made(t, a, maxUsers, key, made))
  {
    if InUse(start, key) {
      BoundKeyIsReplayed(t, a, maxUsers, key, start.mem.idem[key]);
    } else if |made| == 1 {
      BoundKeyIsReplayed(t, a, maxUsers, key, made[0]);
    } else if Creates(t, a, maxUsers, key) {
      CreationBinds(t, a, maxUsers, key);
    }
  }

  // ---------------------------------------------------------------------------
  // All attempts of a call

  /** The store after `n` attempts, each of which finds what the ones before have left. */
  function After(start: Tracked, env: nat -> Try, maxUsers: int, key: Str, n: nat): Tracked {
    if n == 0 then start else Served(After(start, env, maxUsers, key, n - 1), env(n - 1), maxUsers, key)
  }

  /** The ids the first `n` attempts created. */
  function MadeBy(start: Tracked, env: nat -> Try, maxUsers: int, key: Str, n: nat): seq<Str> {
    if n == 0 then []
    else
      var made := MadeBy(start, env, maxUsers, key, n - 1);
      Made(After(start, env, maxUsers, key, n - 1), env(n - 1), maxUsers, key, made)
  }

  /** The code the client sees for attempt `n`. */
  function CodeAt(start: Tracked, env: nat -> Try, maxUsers: int, key: Str, n: nat): Code {
    Seen(After(start, env, maxUsers, key, n), env(n), maxUsers, key)
  }

  /** What the interceptor meets. */
  function Trips(start: Tracked, env: nat -> Try, maxUsers: int, key: Str): nat -> Trip {
    (n: nat) => Trip(env(n).before, env(n).during, env(n).roll,
                     Status(CodeAt(start, env, maxUsers, key, n)))
  }

  /** How many attempts the interceptor makes. */
  function Attempts(cfg: ClientConfig, optIn: bool, maxUsers: int, key: Str, start: Tracked, env: nat -> Try): nat {
    Invocations(cfg, optIn, Trips(start, env, maxUsers, key), 0)
  }

  /** The codes of the first `n` attempts. */
  function SeenBy(start: Tracked, env: nat -> Try, maxUsers: int, key: Str, n: nat): (r: seq<Code>)
    ensures |r| == n && forall i :: 0 <= i < n ==> r[i] == CodeAt(start, env, maxUsers, key, i)
  {
    seq(n, (i: nat) => CodeAt(start, env, maxUsers, key, i))
  }

  /** The user in the reply to attempt `n`. */
  function UserAt(start: Tracked, env: nat -> Try, maxUsers: int, key: Str, n: nat): User {
    var r := Answer(After(start, env, maxUsers, key, n), env(n), maxUsers, key);
    if r.Stored? then r.user else env(n).user
  }

  /** The key is in use, for `u`. */
  predicate Names(t: Tracked, key: Str, u: User) {
    InUse(t, key) && u == t.mem.users[t.mem.idem[key]]
  }

  lemma UserAtIsTheKeys(start: Tracked, env: nat -> Try, maxUsers: int, key: Str, n: nat)
    requires n > 0 && key != [] && Plausible(env(n - 1)) && CodeAt(start, env, maxUsers, key, n - 1) == Code.OK
    ensures Names(After(start, env, maxUsers, key, n), key, UserAt(start, env, maxUsers, key, n - 1))
  {
    SuccessIsTheKeysUser(After(start, env, maxUsers, key, n - 1), env(n - 1), maxUsers, key);
  }

  predicate Undeleted(env: nat -> Try, n: nat) {
    forall i: nat :: i < n ==> NoDeletes(env(i).others)
  }

  lemma {:induction false} AfterIsValid(start: Tracked, env: nat -> Try, maxUsers: int, key: Str, n: nat)
    requires Valid(start)
    ensures Valid(After(start, env, maxUsers, key, n))
  {
    if n > 0 {
      AfterIsValid(start, env, maxUsers, key, n - 1);
      ServedIsValid(After(start, env, maxUsers, key, n - 1), env(n - 1), maxUsers, key);
    }
  }

  /** With a key and no deletes, any number of attempts creates at most one user, and none if the key was in use. */
  lemma {:induction false} AttemptsMakeOnce(start: Tracked, env: nat -> Try, maxUsers: int, key: Str, n: nat)
    requires Valid(start) && key != [] && Undeleted(env, n)
    ensures MadeOnce(start, key, After(start, env, maxUsers, key, n), MadeBy(start, env, maxUsers, key, n))
  {
    if n > 0 {
      var t := After(start, env, maxUsers, key, n - 1);
      AttemptsMakeOnce(start, env, maxUsers, key, n - 1);
      AfterIsValid(start, env, maxUsers, key, n - 1);
      AttemptKeepsMadeOnce(start, t, env(n - 1), maxUsers, key, MadeBy(start, env, maxUsers, key, n - 1));
    }
  }

  /** Every attempt but the last failed with a code that may be retried: without opt-in, Unavailable or
      ResourceExhausted. */
  predicate AllRetried(cfg: ClientConfig, optIn: bool, seen: seq<Code>) {
    forall i :: 0 <= i < |seen| - 1 ==> MayRetry(cfg, optIn, seen[i]) && seen[i] != Code.OK
  }

  lemma RetriedCodes(cfg: ClientConfig, optIn: bool, maxUsers: int, key: Str, start: Tracked, env: nat -> Try)
    ensures var n := Attempts(cfg, optIn, maxUsers, key, start, env);
            AllRetried(cfg, optIn, SeenBy(start, env, maxUsers, key, n))
  {
    var trips, n := Trips(start, env, maxUsers, key), Attempts(cfg, optIn, maxUsers, key, start, env);
    var seen := SeenBy(start, env, maxUsers, key, n);
    if cfg.maxAttempts >= 0 {
      InvocationsStop(cfg, optIn, trips, 0);
    }
    forall i | 0 <= i < |seen| - 1 ensures MayRetry(cfg, optIn, seen[i]) && seen[i] != Code.OK {
      assert Retried(cfg, optIn, trips(i).outcome);
    }
  }

  /** The interceptor around the attempts. */
  method Retry(cfg: ClientConfig, optIn: bool, maxUsers: int, key: Str, start: Tracked, env: nat -> Try)
    returns (n: nat)
    ensures n == Attempts(cfg, optIn, maxUsers, key, start, env) <= if cfg.maxAttempts <= 0 then 0 else cfg.maxAttempts
  {
    var _, calls, _ := RetryUnary(cfg, optIn, Trips(start, env, maxUsers, key));
    return |calls|;
  }

  ghost predicate AllPlausible(env: nat -> Try) {
    forall i: nat :: Plausible(env(i))
  }

  /** The last code is OK. */
  predicate EndsWell(seen: seq<Code>) {
    |seen| > 0 && seen[|seen| - 1] == Code.OK
  }

  /** The reply to the last of `n` attempts, if it is a success. */
  method Receive(maxUsers: int, key: Str, start: Tracked, env: nat -> Try, n: nat) returns (stored: Option<User>)
    requires AllPlausible(env)
    ensures stored.Some? <==> EndsWell(SeenBy(start, env, maxUsers, key, n))
    ensures key != [] && stored.Some? ==> Names(After(start, env, maxUsers, key, n), key, stored.value)
  {
    stored := None;
    if n > 0 && CodeAt(start, env, maxUsers, key, n - 1) == Code.OK {
      stored := Some(UserAt(start, env, maxUsers, key, n - 1));
      if key != [] {
        UserAtIsTheKeys(start, env, maxUsers, key, n);
      }
    }
  }

  /** CreateUser through the interceptor. `start` is the store before the call and `end` after it; `made`
      lists the ids its attempts created, `seen` the codes the client saw. */
  method RetriedCreate(cfg: ClientConfig, optIn: bool, maxUsers: int, key: Str, start: Tracked, env: nat -> Try)
    returns (end: Tracked, stored: Option<User>, seen: seq<Code>, made: seq<Str>)
    requires Valid(start) && AllPlausible(env)
    ensures |seen| == Attempts(cfg, optIn, maxUsers, key, start, env)
    ensures |seen| <= if cfg.maxAttempts <= 0 then 0 else cfg.maxAttempts
    ensures Valid(end) && end == After(start, env, maxUsers, key, |seen|)
    ensures made == MadeBy(start, env, maxUsers, key, |seen|)
    ensures AllRetried(cfg, optIn, seen)
    // With a key and no deletes, all attempts together create at most one user, and none if the key was in use.
    ensures key != [] && Undeleted(env, |seen|) ==> MadeOnce(start, key, end, made)
    // Success is the user the key names.
    ensures key != [] && stored.Some? ==> Names(end, key, stored.value)
    ensures stored.Some? <==> EndsWell(seen)
  {
    var n := Retry(cfg, optIn, maxUsers, key, start, env);
    seen := SeenBy(start, env, maxUsers, key, n);
    end, made := After(start, env, maxUsers, key, n), MadeBy(start, env, maxUsers, key, n);
    RetriedCodes(cfg, optIn, maxUsers, key, start, env);
    AfterIsValid(start, env, maxUsers, key, n);
    if key != [] && Undeleted(env, n) {
      AttemptsMakeOnce(start, env, maxUsers, key, n);
    }
    stored := Receive(maxUsers, key, start, env, n);
  }

  // ---------------------------------------------------------------------------
  // Two users for one call

  /** Some plausible course of events without deletes makes one call create two users. */
  ghost predicate Duplicates(cfg: ClientConfig, optIn: bool, maxUsers: int, key: Str, start: Tracked, env: nat -> Try) {
    && Valid(start) && (forall i: nat :: Plausible(env(i)) && NoDeletes(env(i).others))
    && |MadeBy(start, env, maxUsers, key, Attempts(cfg, optIn, maxUsers, key, start, env))| >= 2
  }

  /** The caller is not limited to codes that are never retried. */
  predicate Retries(cfg: ClientConfig, optIn: bool) {
    exists code :: code != Code.OK && MayRetry(cfg, optIn, code)
  }

  lemma {:induction false} OthersNeverShrink(t: Tracked, ops: seq<Op>)
    requires NoDeletes(ops)
    ensures |Others(t, ops).mem.users| >= |t.mem.users|
    decreases |ops|
  {
    if ops != [] {
      assert !ops[0].Delete?;
      EffectNeverShrinks(t.mem, ops[0]);
      OthersNeverShrink(Next(t, ops[0]), ops[1..]);
    }
  }

  lemma EffectNeverShrinks(s: State, op: Op)
    requires !op.Delete?
    ensures s.users.Keys <= Effect(s, op).users.Keys && |s.users| <= |Effect(s, op).users|
  {
    forall k | k in s.users ensures k in Effect(s, op).users {
      EffectKeepsUser(s, op, k);
    }
    Shrinks(s.users.Keys, Effect(s, op).users.Keys);
  }

  lemma EffectKeepsUser(s: State, op: Op, k: Str)
    requires !op.Delete? && k in s.users
    ensures k in Effect(s, op).users
  {
  }

  /** An attempt that creates finds room for one more, and leaves one more. */
  lemma CreationAddsOne(t: Tracked, a: Try, maxUsers: int, key: Str)
    requires NoDeletes(a.others)
    ensures |Served(t, a, maxUsers, key).mem.users| >= |t.mem.users|
    ensures Creates(t, a, maxUsers, key) ==>
              |t.mem.users| < |Served(t, a, maxUsers, key).mem.users| <= maxUsers
  {
    OthersNeverShrink(t, a.others);
    var u := Others(t, a.others);
    EffectNeverShrinks(u.mem, Request(a, maxUsers, key));
  }

  lemma {:induction false} MadeAreStored(start: Tracked, env: nat -> Try, maxUsers: int, key: Str, n: nat)
    requires Undeleted(env, n)
    ensures var made := |MadeBy(start, env, maxUsers, key, n)|;
            made <= |After(start, env, maxUsers, key, n).mem.users| && (made > 0 ==> made <= maxUsers) && made <= n
  {
    if n > 0 {
      MadeAreStored(start, env, maxUsers, key, n - 1);
      CreationAddsOne(After(start, env, maxUsers, key, n - 1), env(n - 1), maxUsers, key);
    }
  }

  lemma AttemptsAreLimited(cfg: ClientConfig, optIn: bool, env: nat -> Trip)
    ensures Invocations(cfg, optIn, env, 0) >= 2 ==> cfg.maxAttempts >= 2 && Retries(cfg, optIn)
  {
    if Invocations(cfg, optIn, env, 0) >= 2 {
      assert Invocations(cfg, optIn, env, 1) >= 1;
      assert MayRetry(cfg, optIn, env(0).outcome.code);
    }
  }

  lemma DuplicatesNeed(cfg: ClientConfig, optIn: bool, maxUsers: int, key: Str, start: Tracked, env: nat -> Try)
    requires Duplicates(cfg, optIn, maxUsers, key, start, env)
    ensures key == [] && cfg.maxAttempts >= 2 && maxUsers >= 2 && Retries(cfg, optIn)
  {
    var n := Attempts(cfg, optIn, maxUsers, key, start, env);
    MadeAreStored(start, env, maxUsers, key, n);
    AttemptsAreLimited(cfg, optIn, Trips(start, env, maxUsers, key));
    if key != [] {
      AttemptsMakeOnce(start, env, maxUsers, key, n);
    }
  }

  /** The first attempt is executed and its reply lost; every later one proposes another user. */
  function LossyEnv(code: Code): nat -> Try {
    (n: nat) =>
      if n == 0 then Try(false, false, 0, [], ANN, true, Some(code)) else Try(false, false, 0, [], BOB, true, None)
  }

  const ANN_ONLY := Tracked(State(map[ANN.id := ANN], map[], false), map[ANN.id := []])

  lemma FirstAttempt(maxUsers: int, code: Code)
    requires maxUsers >= 2
    ensures After(START, LossyEnv(code), maxUsers, [], 1) == ANN_ONLY
    ensures MadeBy(START, LossyEnv(code), maxUsers, [], 1) == [ANN.id]
    ensures Trips(START, LossyEnv(code), maxUsers, [])(0) == Trip(false, false, 0, Status(code))
  {
    var env := LossyEnv(code);
    assert After(START, env, maxUsers, [], 0) == START && MadeBy(START, env, maxUsers, [], 0) == [];
    assert Others(START, env(0).others) == START;
    assert After(START, env, maxUsers, [], 1) == Served(START, env(0), maxUsers, []);
  }

  lemma SecondAttempt(maxUsers: int, code: Code)
    requires maxUsers >= 2
    ensures MadeBy(START, LossyEnv(code), maxUsers, [], 2) == [ANN.id, BOB.id]
    ensures Trips(START, LossyEnv(code), maxUsers, [])(1) == Trip(false, false, 0, Status(Code.OK))
  {
    var env := LossyEnv(code);
    FirstAttempt(maxUsers, code);
    assert |ANN_ONLY.mem.users.Keys| == 1;
    assert Others(ANN_ONLY, env(1).others) == ANN_ONLY;
    assert Creates(ANN_ONLY, env(1), maxUsers, []);
    assert MadeBy(START, env, maxUsers, [], 2) == Made(ANN_ONLY, env(1), maxUsers, [], [ANN.id]);
  }

  lemma LossyEnvDuplicates(cfg: ClientConfig, optIn: bool, maxUsers: int, code: Code)
    requires cfg.maxAttempts >= 2 && maxUsers >= 2 && code != Code.OK && MayRetry(cfg, optIn, code)
    ensures Duplicates(cfg, optIn, maxUsers, [], START, LossyEnv(code))
  {
    var env, trips := LossyEnv(code), Trips(START, LossyEnv(code), maxUsers, []);
    FirstAttempt(maxUsers, code);
    SecondAttempt(maxUsers, code);
    assert Invocations(cfg, optIn, trips, 1) == 1;
    assert Attempts(cfg, optIn, maxUsers, [], START, env) == 2;
  }

  /** One call can create two users, without anything being deleted, if and only if it carries no key, the
      interceptor may make a second attempt, and there is room for two: also for callers that did not opt in. */
  lemma UnkeyedRetryDuplicates(cfg: ClientConfig, optIn: bool, maxUsers: int, key: Str)
    ensures (exists start, env :: Duplicates(cfg, optIn, maxUsers, key, start, env))
            <==> key == [] && cfg.maxAttempts >= 2 && maxUsers >= 2 && Retries(cfg, optIn)
    ensures Retries(cfg, false)
  {
    assert MayRetry(cfg, false, Code.Unavailable);
    forall start, env | Duplicates(cfg, optIn, maxUsers, key, start, env)
      ensures key == [] && cfg.maxAttempts >= 2 && maxUsers >= 2 && Retries(cfg, optIn)
    {
      DuplicatesNeed(cfg, optIn, maxUsers, key, start, env);
    }
    if key == [] && cfg.maxAttempts >= 2 && maxUsers >= 2 && Retries(cfg, optIn) {
      var code :| code != Code.OK && MayRetry(cfg, optIn, code);
      LossyEnvDuplicates(cfg, optIn, maxUsers, code);
    }
  }
}
