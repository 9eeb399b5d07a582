/**
 The repositories as they are stacked when the server opens them: cache over breaker over
 memory. `Steps` says what one operation through the stack does; the run theorem says that
 what the cache returns is what the store holds.
 */
module Stack {
  import opened Base
  import opened Paging
  import opened Cache
  import Breaker
  import Memory

  datatype Config = Config(breaker: Breaker.Config, ttl: int, maxEntries: int) {
    predicate Normal() {
      breaker.Normal() && ttl > 0 && maxEntries > 0
    }
  }

  datatype State = State(m: Entries, b: Breaker.State, mem: Memory.State)

  /** When an operation looks the cache up, passes the breaker, leaves it, makes room in the cache and fills it. */
  datatype Times = Times(lookup: int, before: int, after: int, evict: int, fill: int)

  // ---------------------------------------------------------------------------
  // The breaker around the store: admit, call, report

  function GuardedBreaker(cfg: Breaker.Config, b: Breaker.State, t: Times, err: Option<Error>): Breaker.State {
    if Breaker.Admits(cfg, b, t.before) then Breaker.After(cfg, Breaker.Before(cfg, b, t.before).0, err, t.after)
    else Breaker.Before(cfg, b, t.before).0
  }

  ghost function GuardedReply(cfg: Breaker.Config, b: Breaker.State, mem: Memory.State, t: Times, op: Memory.Op)
    : Memory.Reply
  {
    if Breaker.Admits(cfg, b, t.before) then Memory.ReplyTo(mem, op) else Memory.Failed(CircuitOpen)
  }

  function GuardedStore(cfg: Breaker.Config, b: Breaker.State, mem: Memory.State, t: Times, op: Memory.Op)
    : Memory.State
  {
    if Breaker.Admits(cfg, b, t.before) then Memory.Effect(mem, op) else mem
  }

  /** What the breaker returns for `op` and what the two layers below the cache become. */
  ghost predicate Guarded(cfg: Breaker.Config, s: State, op: Memory.Op, t: Times, s': State, r: Memory.Reply) {
    && r == GuardedReply(cfg, s.b, s.mem, t, op)
    && s'.mem == GuardedStore(cfg, s.b, s.mem, t, op)
    && s'.b == GuardedBreaker(cfg, s.b, t, r.Err())
  }

  // ---------------------------------------------------------------------------
  // The cache on top

  predicate ServesStale(e: Error) {
    e.Is(Unavailable) || e.Is(Canceled) || e.Is(DeadlineExceeded)
  }

  predicate FreshHit(m: Entries, id: Str, now: int) {
    id in m && !IsExpired(m[id], now)
  }

  ghost predicate GetStep(cfg: Config, s: State, op: Memory.Op, t: Times, s': State, r: Memory.Reply)
    requires op.Get?
  {
    if FreshHit(s.m, op.id, t.lookup) then s' == s && r == Memory.Got(s.m[op.id].user)
    else
      var inner := GuardedReply(cfg.breaker, s.b, s.mem, t, op);
      && Guarded(cfg.breaker, s, op, t, s', inner)
      && match inner
         case Got(u) => r == inner && Sets(s.m, cfg.maxEntries, cfg.ttl, op.id, u, t.evict, t.fill, s'.m)
         case Failed(e) =>
           s'.m == s.m && r == if ServesStale(e) && op.id in s.m then Memory.Got(s.m[op.id].user) else inner
         case _ => s'.m == s.m && r == inner
  }

  ghost predicate ModifyStep(cfg: Config, s: State, op: Memory.Op, t: Times, s': State, r: Memory.Reply)
    requires op.Modify?
  {
    var inner := GuardedReply(cfg.breaker, s.b, s.mem, t, op);
    && Guarded(cfg.breaker, s, op, t, s', inner)
    && if inner.Failed? then
         s'.m == s.m && r == if inner.error.Is(Unavailable) && op.id in s.m then Memory.Got(s.m[op.id].user) else inner
       else s'.m == s.m - {op.id} && r == inner
  }

  /** One operation through cache, breaker and memory. */
  ghost predicate Steps(cfg: Config, s: State, op: Memory.Op, t: Times, s': State, r: Memory.Reply) {
    match op
    case Get(_, _) => GetStep(cfg, s, op, t, s', r)
    case Modify(_, _, _) => ModifyStep(cfg, s, op, t, s', r)
    case Update(_, user) =>
      && Guarded(cfg.breaker, s, op, t, s', r)
      && s'.m == if r.Failed? || user == None then s.m else s.m - {user.value.id}
    case Delete(_, id) =>
      Guarded(cfg.breaker, s, op, t, s', r) && s'.m == if r.Failed? then s.m else s.m - {id}
    case Close =>
      s' == State(s.m, Breaker.Reset(s.b), Memory.Effect(s.mem, op)) && r == Memory.ReplyTo(s.mem, op)
    case _ => Guarded(cfg.breaker, s, op, t, s', r) && s'.m == s.m
  }

  // ---------------------------------------------------------------------------
  // What every operation keeps

  /** Every entry, expired or not, is the stored user; no id is empty; the cache is within its bound. */
  ghost predicate Coherent(cfg: Config, s: State) {
    && [] !in s.mem.users
    && Mirrors(s.m, s.mem.users)
    && |s.m| <= cfg.maxEntries
  }

  ghost predicate Mirrors(m: Entries, users: Store) {
    forall k :: k in m ==> k in users && m[k].user == users[k]
  }

  /** An operation changes the store only at the id it names, and leaves it alone when it fails. */
  function Target(op: Memory.Op): Option<Str> {
    match op
    case Create(_, user, _) => if user.Some? then Some(user.value.id) else None
    case CreateKeyed(_, user, _, _) => if user.Some? then Some(user.value.id) else None
    case Update(_, user) => if user.Some? then Some(user.value.id) else None
    case Modify(_, id, _) => Some(id)
    case Delete(_, id) => Some(id)
    case _ => None
  }

  lemma EffectIsLocal(mem: Memory.State, op: Memory.Op, k: Str)
    requires Target(op) != Some(k)
    ensures k in Memory.Effect(mem, op).users <==> k in mem.users
    ensures k in mem.users ==> Memory.Effect(mem, op).users[k] == mem.users[k]
  {
  }

  lemma CreatesOnlyAdd(mem: Memory.State, op: Memory.Op, k: Str)
    requires (op.Create? || op.CreateKeyed?) && k in mem.users
    ensures k in Memory.Effect(mem, op).users && Memory.Effect(mem, op).users[k] == mem.users[k]
  {
  }

  lemma WritesReport(mem: Memory.State, op: Memory.Op)
    requires op.Update? || op.Modify? || op.Delete?
    ensures Memory.ReplyTo(mem, op).Failed? ==> Memory.Effect(mem, op) == mem
    ensures op.Update? && !Memory.ReplyTo(mem, op).Failed? ==> op.user.Some?
    ensures op.Modify? && !Memory.ReplyTo(mem, op).Failed? ==>
              && Memory.ReplyTo(mem, op).Got? && op.id in Memory.Effect(mem, op).users
              && Memory.ReplyTo(mem, op).user == Memory.Effect(mem, op).users[op.id]
  {
  }

  lemma NoEmptyId(mem: Memory.State, op: Memory.Op)
    requires [] !in mem.users
    ensures [] !in Memory.Effect(mem, op).users
  {
  }

  lemma GuardedKeepsMirror(cfg: Config, s: State, op: Memory.Op, t: Times, s': State, r: Memory.Reply)
    requires Mirrors(s.m, s.mem.users) && Guarded(cfg.breaker, s, op, t, s', r)
    ensures forall k :: k in s.m && Target(op) != Some(k) ==> k in s'.mem.users && s.m[k].user == s'.mem.users[k]
    ensures (op.Create? || op.CreateKeyed?) ==> Mirrors(s.m, s'.mem.users)
    ensures (op.Update? || op.Modify? || op.Delete?) && r.Failed? ==> s'.mem == s.mem
  {
    forall k | k in s.m && Target(op) != Some(k)
      ensures k in s'.mem.users && s.m[k].user == s'.mem.users[k]
    {
      EffectIsLocal(s.mem, op, k);
    }
    if op.Create? || op.CreateKeyed? {
      forall k | k in s.m ensures k in s'.mem.users && s.m[k].user == s'.mem.users[k] {
        CreatesOnlyAdd(s.mem, op, k);
      }
    }
    if op.Update? || op.Modify? || op.Delete? {
      WritesReport(s.mem, op);
    }
  }

  lemma Without(m: Entries, id: Str)
    ensures |m - {id}| <= |m|
  {
    Shrinks((m - {id}).Keys, m.Keys);
  }

  lemma GetKeeps(cfg: Config, s: State, op: Memory.Op, t: Times, s': State, r: Memory.Reply)
    requires cfg.Normal() && Coherent(cfg, s) && op.Get? && GetStep(cfg, s, op, t, s', r)
    ensures Coherent(cfg, s') && s'.mem == s.mem
    ensures r.Got? ==> op.id in s'.mem.users && r.user == s'.mem.users[op.id]
  {
    if !FreshHit(s.m, op.id, t.lookup) {
      var inner := GuardedReply(cfg.breaker, s.b, s.mem, t, op);
      if inner.Got? {
        assert Sets(s.m, cfg.maxEntries, cfg.ttl, op.id, inner.user, t.evict, t.fill, s'.m);
        SetsKeepsBound(s.m, cfg.maxEntries, cfg.ttl, op.id, inner.user, t.evict, t.fill, s'.m);
      }
    }
  }

  lemma ModifyKeeps(cfg: Config, s: State, op: Memory.Op, t: Times, s': State, r: Memory.Reply)
    requires cfg.Normal() && Coherent(cfg, s) && op.Modify? && ModifyStep(cfg, s, op, t, s', r)
    ensures Coherent(cfg, s')
    ensures r.Got? ==> op.id in s'.mem.users && r.user == s'.mem.users[op.id]
  {
    GuardedKeepsMirror(cfg, s, op, t, s', GuardedReply(cfg.breaker, s.b, s.mem, t, op));
    WritesReport(s.mem, op);
    NoEmptyId(s.mem, op);
    Without(s.m, op.id);
  }

  lemma UpdateKeeps(cfg: Config, s: State, op: Memory.Op, t: Times, s': State, r: Memory.Reply)
    requires Coherent(cfg, s) && op.Update? && Steps(cfg, s, op, t, s', r)
    ensures Coherent(cfg, s')
  {
    NoEmptyId(s.mem, op);
    GuardedKeepsMirror(cfg, s, op, t, s', r);
    WritesReport(s.mem, op);
    if op.user.Some? {
      Without(s.m, op.user.value.id);
    }
  }

  lemma DeleteKeeps(cfg: Config, s: State, op: Memory.Op, t: Times, s': State, r: Memory.Reply)
    requires Coherent(cfg, s) && op.Delete? && Steps(cfg, s, op, t, s', r)
    ensures Coherent(cfg, s')
  {
    NoEmptyId(s.mem, op);
    GuardedKeepsMirror(cfg, s, op, t, s', r);
    Without(s.m, op.id);
  }

  lemma OthersKeep(cfg: Config, s: State, op: Memory.Op, t: Times, s': State, r: Memory.Reply)
    requires Coherent(cfg, s) && Steps(cfg, s, op, t, s', r)
    requires !op.Get? && !op.Modify? && !op.Update? && !op.Delete?
    ensures Coherent(cfg, s')
  {
    NoEmptyId(s.mem, op);
    if !op.Close? {
      GuardedKeepsMirror(cfg, s, op, t, s', r);
    }
  }

  lemma StepsKeep(cfg: Config, s: State, op: Memory.Op, t: Times, s': State, r: Memory.Reply)
    requires cfg.Normal() && Coherent(cfg, s) && Steps(cfg, s, op, t, s', r)
    ensures Coherent(cfg, s')
    ensures (op.Get? || op.Modify?) && r.Got? ==> op.id in s'.mem.users && r.user == s'.mem.users[op.id]
  {
    match op
    case Get(_, _) => GetKeeps(cfg, s, op, t, s', r);
    case Modify(_, _, _) => ModifyKeeps(cfg, s, op, t, s', r);
    case Update(_, _) => UpdateKeeps(cfg, s, op, t, s', r);
    case Delete(_, _) => DeleteKeeps(cfg, s, op, t, s', r);
    case _ => OthersKeep(cfg, s, op, t, s', r);
  }

  // ---------------------------------------------------------------------------
  // Whole runs

  datatype Event = Event(op: Memory.Op, times: Times, reply: Memory.Reply)

  ghost predicate StepAt(cfg: Config, states: seq<State>, evs: seq<Event>, i: nat)
    requires i < |evs| && |states| == |evs| + 1
  {
    Steps(cfg, states[i], evs[i].op, evs[i].times, states[i + 1], evs[i].reply)
  }

  /** A sequential run from an empty store behind a fresh breaker and cache. */
  ghost predicate Run(cfg: Config, states: seq<State>, evs: seq<Event>) {
    && |states| == |evs| + 1
    && states[0] == State(map[], Breaker.FRESH, Memory.EMPTY)
    && forall i :: 0 <= i < |evs| ==> StepAt(cfg, states, evs, i)
  }

  lemma {:induction false} RunIsCoherent(cfg: Config, states: seq<State>, evs: seq<Event>, i: nat)
    requires cfg.Normal() && Run(cfg, states, evs) && i < |states|
    ensures Coherent(cfg, states[i])
  {
    if i > 0 {
      RunIsCoherent(cfg, states, evs, i - 1);
      assert StepAt(cfg, states, evs, i - 1);
      StepsKeep(cfg, states[i - 1], evs[i - 1].op, evs[i - 1].times, states[i], evs[i - 1].reply);
    }
  }

  /** In every run, through expiry, eviction, breaker rejections and Close, a user that Get or
      ReadModifyUpdate returns is the store's value for that id when the call is over. */
  lemma ReturnedUsersAreStored(cfg: Config, states: seq<State>, evs: seq<Event>, i: nat)
    requires cfg.Normal() && Run(cfg, states, evs) && i < |evs|
    requires (evs[i].op.Get? || evs[i].op.Modify?) && evs[i].reply.Got?
    ensures evs[i].op.id in states[i + 1].mem.users
    ensures evs[i].reply.user == states[i + 1].mem.users[evs[i].op.id]
  {
    RunIsCoherent(cfg, states, evs, i);
    assert StepAt(cfg, states, evs, i);
    StepsKeep(cfg, states[i], evs[i].op, evs[i].times, states[i + 1], evs[i].reply);
  }

  lemma GetReportsCircuitOpenIff(cfg: Config, s: State, op: Memory.Op, t: Times, s': State, r: Memory.Reply)
    requires op.Get? && GetStep(cfg, s, op, t, s', r)
    ensures r == Memory.Failed(CircuitOpen) <==>
            !FreshHit(s.m, op.id, t.lookup) && !Breaker.Admits(cfg.breaker, s.b, t.before)
  {
  }

  /** In every run a Get comes back with ErrCircuitOpen if and only if the breaker rejects it and there is
      no fresh entry: the breaker's rejections are not served from stale ones. */
  lemma RejectionsAreNotServedStale(cfg: Config, states: seq<State>, evs: seq<Event>, i: nat)
    requires Run(cfg, states, evs) && i < |evs| && evs[i].op.Get?
    ensures evs[i].reply == Memory.Failed(CircuitOpen) <==>
            && !FreshHit(states[i].m, evs[i].op.id, evs[i].times.lookup)
            && !Breaker.Admits(cfg.breaker, states[i].b, evs[i].times.before)
  {
    assert StepAt(cfg, states, evs, i);
    GetReportsCircuitOpenIff(cfg, states[i], evs[i].op, evs[i].times, states[i + 1], evs[i].reply);
  }

  // ---------------------------------------------------------------------------
  // What a nil error of ReadModifyUpdate means

  /** The callback's result for the stored user is what was returned, and it is stored, at that id only. */
  predicate Applied(s: State, op: Memory.Op, u: User, s': State)
    requires op.Modify?
  {
    && op.id in s.mem.users && op.mutate.Some? && op.mutate.value(s.mem.users[op.id]) == Ok(u)
    && s'.mem.users == s.mem.users[op.id := u]
  }

  /** The store is closed, or the callback aborts with ErrUnavailable, while the id is cached. */
  predicate ServedInstead(cfg: Config, s: State, op: Memory.Op, t: Times)
    requires op.Modify?
  {
    && Breaker.Admits(cfg.breaker, s.b, t.before) && op.ctx == Live && !Blank(op.id) && op.mutate.Some?
    && op.id in s.m && op.id in s.mem.users
    && (s.mem.closed || AbortsUnavailable(op.mutate.value(s.mem.users[op.id])))
  }

  predicate AbortsUnavailable(r: Result<User>) {
    r.Err? && r.error.Is(Unavailable)
  }

  /** The callback leaves the stored user as it is. */
  predicate NoChange(s: State, op: Memory.Op)
    requires op.Modify? && op.mutate.Some? && op.id in s.mem.users
  {
    op.mutate.value(s.mem.users[op.id]) == Ok(s.mem.users[op.id])
  }

  /** The store itself: what it answers with a user it has stored, and when it is unavailable. */
  lemma StoreModifies(mem: Memory.State, op: Memory.Op)
    requires op.Modify?
    ensures Memory.ReplyTo(mem, op).Got? ==>
              && op.id in mem.users && op.mutate.Some?
              && op.mutate.value(mem.users[op.id]) == Ok(Memory.ReplyTo(mem, op).user)
              && Memory.Effect(mem, op).users == mem.users[op.id := Memory.ReplyTo(mem, op).user]
    ensures !Memory.ReplyTo(mem, op).Got? ==> Memory.ReplyTo(mem, op).Failed? && Memory.Effect(mem, op) == mem
    ensures op.id in mem.users ==>
              (Memory.ReplyTo(mem, op).Failed? && Memory.ReplyTo(mem, op).error.Is(Unavailable) <==>
               && op.ctx == Live && !Blank(op.id) && op.mutate.Some?
               && (mem.closed || AbortsUnavailable(op.mutate.value(mem.users[op.id]))))
  {
  }

  lemma InsteadOutcome(cfg: Config, s: State, op: Memory.Op, t: Times, s': State, r: Memory.Reply)
    requires Coherent(cfg, s) && op.Modify? && ModifyStep(cfg, s, op, t, s', r) && ServedInstead(cfg, s, op, t)
    ensures r == Memory.Got(s.mem.users[op.id]) && s'.mem == s.mem
    ensures Applied(s, op, r.user, s') <==> NoChange(s, op)
  {
    StoreModifies(s.mem, op);
    assert s.mem.users[op.id := s.mem.users[op.id]] == s.mem.users;
  }

  lemma OrdinaryOutcome(cfg: Config, s: State, op: Memory.Op, t: Times, s': State, r: Memory.Reply)
    requires Coherent(cfg, s) && op.Modify? && ModifyStep(cfg, s, op, t, s', r) && !ServedInstead(cfg, s, op, t)
    ensures if r.Got? then Applied(s, op, r.user, s') else s'.mem == s.mem
  {
    StoreModifies(s.mem, op);
  }

  /** In every run, a nil error of ReadModifyUpdate means that the update was applied, except exactly when
      the stored user was served from the cache instead: through an admitting breaker, with the id cached,
      from a closed store or a callback that aborts with ErrUnavailable. Then nothing is written. */
  lemma ModifySuccessIff(cfg: Config, states: seq<State>, evs: seq<Event>, i: nat)
    requires cfg.Normal() && Run(cfg, states, evs) && i < |evs| && evs[i].op.Modify?
    ensures var s, s', op, r := states[i], states[i + 1], evs[i].op, evs[i].reply;
            var instead := ServedInstead(cfg, s, op, evs[i].times);
            && (instead ==> r == Memory.Got(s.mem.users[op.id]) && s'.mem == s.mem)
            && (r.Got? ==> (Applied(s, op, r.user, s') <==> !instead || NoChange(s, op)))
            && (!r.Got? ==> s'.mem == s.mem)
  {
    RunIsCoherent(cfg, states, evs, i);
    assert StepAt(cfg, states, evs, i);
    if ServedInstead(cfg, states[i], evs[i].op, evs[i].times) {
      InsteadOutcome(cfg, states[i], evs[i].op, evs[i].times, states[i + 1], evs[i].reply);
    } else {
      OrdinaryOutcome(cfg, states[i], evs[i].op, evs[i].times, states[i + 1], evs[i].reply);
    }
  }

  /** A user is created and read, the repository is closed, and then the user is to be changed. */
  function ClosedModify(u: User, mutate: Memory.Mutation): seq<Event> {
    var t := Times(0, 0, 0, 0, 0);
    [Event(Memory.Create(Live, Some(u), 1), t, Memory.Done),
     Event(Memory.Get(Live, u.id), t, Memory.Got(u)),
     Event(Memory.Close, t, Memory.Done),
     Event(Memory.Modify(Live, u.id, Some(mutate)), t, Memory.Got(u))]
  }

  function ClosedModifyStates(cfg: Config, u: User): seq<State> {
    var m, users := map[u.id := Entry(u, cfg.ttl)], map[u.id := u];
    [State(map[], Breaker.FRESH, Memory.EMPTY),
     State(map[], Breaker.FRESH, Memory.State(users, map[], false)),
     State(m, Breaker.FRESH, Memory.State(users, map[], false)),
     State(m, Breaker.FRESH, Memory.State(users, map[], true)),
     State(m, Breaker.FRESH, Memory.State(users, map[], true))]
  }

  lemma ReadsThrough(cfg: Config, u: User)
    requires cfg.Normal()
    ensures Sets(map[], cfg.maxEntries, cfg.ttl, u.id, u, 0, 0, map[u.id := Entry(u, cfg.ttl)])
  {
    assert MakesRoom(map[], cfg.maxEntries, u.id, 0, map[]);
  }

  /** The exception is reached in every configuration: with the repository closed, the update reports
      success, returns the old user and is lost. */
  lemma ClosedModifyReportsSuccess(cfg: Config, u: User, mutate: Memory.Mutation)
    requires cfg.Normal() && !Blank(u.id) && mutate(u) != Ok(u)
    ensures var states, evs := ClosedModifyStates(cfg, u), ClosedModify(u, mutate);
            && Run(cfg, states, evs)
            && evs[3].reply == Memory.Got(u) && !Applied(states[3], evs[3].op, u, states[4])
  {
    var states, evs := ClosedModifyStates(cfg, u), ClosedModify(u, mutate);
    ReadsThrough(cfg, u);
    assert StepAt(cfg, states, evs, 0);
    assert StepAt(cfg, states, evs, 1);
    assert StepAt(cfg, states, evs, 2);
    assert StepAt(cfg, states, evs, 3);
  }
}
