/**
 What the stacked repositories answer in sequential runs: exactly when a Get is served from
 the cache, from the store or with which error, what the other operations come back with, what
 becomes of the entries, and that the breaker between them takes part in a run of its own.
 */
module StackAnswers {
  import opened Base
  import opened Cache
  import opened Stack
  import Breaker
  import BreakerRuns
  import Memory

  // ---------------------------------------------------------------------------
  // Get

  /** Whether the breaker lets operation `i` pass. */
  predicate Passes(cfg: Config, states: seq<State>, evs: seq<Event>, i: nat)
    requires i < |evs| && |states| == |evs| + 1
  {
    Breaker.Admits(cfg.breaker, states[i].b, evs[i].times.before)
  }

  /** The id is cached and its entry has not expired at lookup. */
  predicate Fresh(states: seq<State>, evs: seq<Event>, i: nat)
    requires i < |evs| && |states| == |evs| + 1 && evs[i].op.Get?
  {
    evs[i].op.id in states[i].m && evs[i].times.lookup <= states[i].m[evs[i].op.id].exp
  }

  /** The store cannot be asked: the context has ended, or the repository is closed. */
  predicate OutOfReach(s: State, ctx: Context) {
    ctx == Cancelled || ctx == Expired || (ctx == Live && s.mem.closed)
  }

  /** A Get returns the stored user if and only if it is cached and fresh, or the breaker lets it pass and it can
      be read, or is cached (however long expired) when the store cannot be asked. */
  lemma GetSucceedsIff(cfg: Config, states: seq<State>, evs: seq<Event>, i: nat, u: User)
    requires cfg.Normal() && Run(cfg, states, evs) && i < |evs| && evs[i].op.Get?
    ensures var s, ctx, id := states[i], evs[i].op.ctx, evs[i].op.id;
            evs[i].reply == Memory.Got(u) <==>
            && id in s.mem.users && s.mem.users[id] == u
            && (|| Fresh(states, evs, i)
                || (Passes(cfg, states, evs, i) &&
                    ((ctx == Live && !s.mem.closed) || (id in s.m && OutOfReach(s, ctx)))))
  {
    RunIsCoherent(cfg, states, evs, i);
    assert StepAt(cfg, states, evs, i);
  }

  /** And every error of it has exactly one cause. */
  lemma GetFailsIff(cfg: Config, states: seq<State>, evs: seq<Event>, i: nat)
    requires cfg.Normal() && Run(cfg, states, evs) && i < |evs| && evs[i].op.Get?
    ensures var s, ctx, id, r := states[i], evs[i].op.ctx, evs[i].op.id, evs[i].reply;
            var asks := !Fresh(states, evs, i) && Passes(cfg, states, evs, i);
            && (r == Memory.Failed(CircuitOpen) <==> !Fresh(states, evs, i) && !Passes(cfg, states, evs, i))
            && (r == Memory.Failed(NotFound) <==> asks && ctx == Live && !s.mem.closed && id !in s.mem.users)
            && (r == Memory.Failed(Unavailable) <==> asks && ctx == Live && s.mem.closed && id !in s.m)
            && (r == Memory.Failed(Canceled) <==> asks && ctx == Cancelled && id !in s.m)
            && (r == Memory.Failed(DeadlineExceeded) <==> asks && ctx == Expired && id !in s.m)
            && (r == Memory.Failed(Invalid) <==> asks && ctx == NilContext)
  {
    RunIsCoherent(cfg, states, evs, i);
    assert StepAt(cfg, states, evs, i);
  }

  /** A Get that reads the store caches what it read for a ttl, and drops nothing while there is room; no other
      Get changes the cache. */
  lemma GetCaches(cfg: Config, states: seq<State>, evs: seq<Event>, i: nat)
    requires cfg.Normal() && Run(cfg, states, evs) && i < |evs| && evs[i].op.Get?
    ensures var s, s', id := states[i], states[i + 1], evs[i].op.id;
            var read := && !Fresh(states, evs, i) && Passes(cfg, states, evs, i)
                        && evs[i].op.ctx == Live && !s.mem.closed && id in s.mem.users;
            && (read ==> id in s'.m && s'.m[id] == Entry(s.mem.users[id], evs[i].times.fill + cfg.ttl))
            && (read && (id in s.m || |s.m| < cfg.maxEntries) ==> s'.m.Keys == s.m.Keys + {id})
            && (forall k :: k in s'.m && k != id ==> k in s.m && s'.m[k] == s.m[k])
            && (!read ==> s'.m == s.m)
  {
    RunIsCoherent(cfg, states, evs, i);
    assert StepAt(cfg, states, evs, i);
    if evs[i].op.id in states[i].mem.users {
      FillCaches(cfg, states[i], evs[i].op, evs[i].times, states[i + 1]);
    }
  }

  lemma FillCaches(cfg: Config, s: State, op: Memory.Op, t: Times, s': State)
    requires op.Get? && op.id in s.mem.users
    ensures Sets(s.m, cfg.maxEntries, cfg.ttl, op.id, s.mem.users[op.id], t.evict, t.fill, s'.m) ==>
              && op.id in s'.m && s'.m[op.id] == Entry(s.mem.users[op.id], t.fill + cfg.ttl)
              && (op.id in s.m || |s.m| < cfg.maxEntries ==> s'.m.Keys == s.m.Keys + {op.id})
              && forall k :: k in s'.m && k != op.id ==> k in s.m && s'.m[k] == s.m[k]
  {
    var u := s.mem.users[op.id];
    if Sets(s.m, cfg.maxEntries, cfg.ttl, op.id, u, t.evict, t.fill, s'.m) {
      SetsDropsOnlyWhenFull(s.m, cfg.maxEntries, cfg.ttl, op.id, u, t.evict, t.fill, s'.m);
      forall k | k in s'.m && k != op.id ensures k in s.m && s'.m[k] == s.m[k] {
        SetsOnlyKey(s.m, cfg.maxEntries, cfg.ttl, op.id, u, t.evict, t.fill, s'.m, k);
      }
    }
  }

  // ---------------------------------------------------------------------------
  // The other operations

  /** Everything but Get, ReadModifyUpdate and Close comes back from the store if the breaker lets it pass and
      with ErrCircuitOpen, undone, if not. */
  lemma OthersPassThrough(cfg: Config, states: seq<State>, evs: seq<Event>, i: nat)
    requires Run(cfg, states, evs) && i < |evs| && !evs[i].op.Get? && !evs[i].op.Modify? && !evs[i].op.Close?
    ensures Passes(cfg, states, evs, i) ==>
              && evs[i].reply == Memory.ReplyTo(states[i].mem, evs[i].op)
              && states[i + 1].mem == Memory.Effect(states[i].mem, evs[i].op)
    ensures !Passes(cfg, states, evs, i) ==>
              evs[i].reply == Memory.Failed(CircuitOpen) && states[i + 1].mem == states[i].mem
  {
    assert StepAt(cfg, states, evs, i);
  }

  /** So does ReadModifyUpdate, unless the stored user is served instead; and Close always succeeds. */
  lemma ModifyPassesThrough(cfg: Config, states: seq<State>, evs: seq<Event>, i: nat)
    requires cfg.Normal() && Run(cfg, states, evs) && i < |evs|
    requires evs[i].op.Modify? && !ServedInstead(cfg, states[i], evs[i].op, evs[i].times)
    ensures evs[i].reply ==
            if Passes(cfg, states, evs, i) then Memory.ReplyTo(states[i].mem, evs[i].op) else Memory.Failed(CircuitOpen)
  {
    RunIsCoherent(cfg, states, evs, i);
    assert StepAt(cfg, states, evs, i);
    StoreModifies(states[i].mem, evs[i].op);
  }

  lemma CloseCloses(cfg: Config, states: seq<State>, evs: seq<Event>, i: nat)
    requires Run(cfg, states, evs) && i < |evs| && evs[i].op.Close?
    ensures evs[i].reply == Memory.Done
    ensures states[i + 1].mem.closed && states[i + 1].mem.users == states[i].mem.users
  {
    assert StepAt(cfg, states, evs, i);
  }

  /** The id whose user a successful operation may have changed. */
  function Changed(op: Memory.Op): Option<Str> {
    match op
    case Update(_, user) => if user.Some? then Some(user.value.id) else None
    case Delete(_, id) => Some(id)
    case _ => None
  }

  /** An entry goes exactly when an update or delete of its id succeeds; creates, listings, pings, Close and
      whatever fails leave the cache as it is. */
  lemma WritesInvalidate(cfg: Config, states: seq<State>, evs: seq<Event>, i: nat)
    requires Run(cfg, states, evs) && i < |evs| && !evs[i].op.Get? && !evs[i].op.Modify?
    ensures states[i + 1].m ==
            if evs[i].reply.Failed? || Changed(evs[i].op) == None then states[i].m
            else states[i].m - {Changed(evs[i].op).value}
  {
    assert StepAt(cfg, states, evs, i);
  }

  /** So does it when ReadModifyUpdate has stored what it returns. */
  lemma ModifyInvalidates(cfg: Config, states: seq<State>, evs: seq<Event>, i: nat)
    requires cfg.Normal() && Run(cfg, states, evs) && i < |evs| && evs[i].op.Modify?
    ensures var stores := evs[i].reply.Got? && !ServedInstead(cfg, states[i], evs[i].op, evs[i].times);
            states[i + 1].m == if stores then states[i].m - {evs[i].op.id} else states[i].m
  {
    RunIsCoherent(cfg, states, evs, i);
    assert StepAt(cfg, states, evs, i);
    StoreModifies(states[i].mem, evs[i].op);
  }

  // ---------------------------------------------------------------------------
  // The breaker's part

  /** What the breaker sees of an operation: nothing of a fresh hit, a reset by Close, an attempt to pass, and
      the store's result if it passed. */
  ghost function Seen(cfg: Config, s: State, e: Event): seq<BreakerRuns.Event> {
    if e.op.Close? then [BreakerRuns.ForceReset(e.times.before)]
    else if e.op.Get? && e.op.id in s.m && e.times.lookup <= s.m[e.op.id].exp then []
    else if !Breaker.Admits(cfg.breaker, s.b, e.times.before) then [BreakerRuns.Admit(0, e.times.before)]
    else [BreakerRuns.Admit(0, e.times.before),
          BreakerRuns.Finish(0, Memory.ReplyTo(s.mem, e.op).Err(), e.times.after)]
  }

  ghost function Trace(cfg: Config, states: seq<State>, evs: seq<Event>, i: nat): seq<BreakerRuns.Event>
    requires i <= |evs| && |states| == |evs| + 1
  {
    if i == 0 then [] else Trace(cfg, states, evs, i - 1) + Seen(cfg, states[i - 1], evs[i - 1])
  }

  /** The clock does not go back, within an operation or from one to the next. */
  predicate Ordered(evs: seq<Event>) {
    && (forall i :: 0 <= i < |evs| ==> 0 <= evs[i].times.before <= evs[i].times.after)
    && (forall i, j :: 0 <= i < j < |evs| ==> evs[i].times.after <= evs[j].times.before)
  }

  /** The trace is a run of the breaker that has come to `b` by time `now`, with no call in flight. */
  ghost predicate Follows(cfg: Breaker.Config, trace: seq<BreakerRuns.Event>, b: Breaker.State, now: int) {
    var t := BreakerRuns.Final(cfg, trace);
    BreakerRuns.Run(cfg, trace) && t.b == b && t.inFlight == {} && t.clock <= now
  }

  lemma RejectedFollows(cfg: Breaker.Config, trace: seq<BreakerRuns.Event>, b: Breaker.State, now: int, before: int)
    requires Follows(cfg, trace, b, now) && now <= before && !Breaker.Admits(cfg, b, before)
    ensures Follows(cfg, trace + [BreakerRuns.Admit(0, before)], Breaker.Before(cfg, b, before).0, before)
  {
    BreakerRuns.Extend(cfg, trace, BreakerRuns.Admit(0, before));
  }

  lemma AdmittedFollows(cfg: Breaker.Config, trace: seq<BreakerRuns.Event>, b: Breaker.State, now: int,
                        before: int, err: Option<Error>, after: int)
    requires Follows(cfg, trace, b, now) && now <= before <= after && Breaker.Admits(cfg, b, before)
    ensures Follows(cfg, trace + [BreakerRuns.Admit(0, before), BreakerRuns.Finish(0, err, after)],
                    Breaker.After(cfg, Breaker.Before(cfg, b, before).0, err, after), after)
  {
    var admit, finish := BreakerRuns.Admit(0, before), BreakerRuns.Finish(0, err, after);
    BreakerRuns.Extend(cfg, trace, admit);
    BreakerRuns.Extend(cfg, trace + [admit], finish);
    assert trace + [admit, finish] == trace + [admit] + [finish];
  }

  lemma ResetFollows(cfg: Breaker.Config, trace: seq<BreakerRuns.Event>, b: Breaker.State, now: int, at: int)
    requires Follows(cfg, trace, b, now) && now <= at
    ensures Follows(cfg, trace + [BreakerRuns.ForceReset(at)], Breaker.Reset(b), at)
  {
    BreakerRuns.Extend(cfg, trace, BreakerRuns.ForceReset(at));
  }

  /** What an operation does to the breaker, whatever it returns to its caller. */
  lemma BreakerStep(cfg: Config, s: State, e: Event, s': State)
    requires Steps(cfg, s, e.op, e.times, s', e.reply)
    ensures s'.b ==
            if e.op.Close? then Breaker.Reset(s.b)
            else if e.op.Get? && e.op.id in s.m && e.times.lookup <= s.m[e.op.id].exp then s.b
            else if !Breaker.Admits(cfg.breaker, s.b, e.times.before)
            then Breaker.Before(cfg.breaker, s.b, e.times.before).0
            else Breaker.After(cfg.breaker, Breaker.Before(cfg.breaker, s.b, e.times.before).0,
                               Memory.ReplyTo(s.mem, e.op).Err(), e.times.after)
  {
  }

  lemma SeenFollows(cfg: Config, s: State, e: Event, s': State, trace: seq<BreakerRuns.Event>, now: int)
    requires Steps(cfg, s, e.op, e.times, s', e.reply) && Follows(cfg.breaker, trace, s.b, now)
    requires now <= e.times.before <= e.times.after
    ensures Follows(cfg.breaker, trace + Seen(cfg, s, e), s'.b, e.times.after)
  {
    BreakerStep(cfg, s, e, s');
    if e.op.Close? {
      ResetFollows(cfg.breaker, trace, s.b, now, e.times.before);
    } else if e.op.Get? && e.op.id in s.m && e.times.lookup <= s.m[e.op.id].exp {
      assert trace + [] == trace;
    } else if !Breaker.Admits(cfg.breaker, s.b, e.times.before) {
      RejectedFollows(cfg.breaker, trace, s.b, now, e.times.before);
    } else {
      AdmittedFollows(cfg.breaker, trace, s.b, now, e.times.before, Memory.ReplyTo(s.mem, e.op).Err(), e.times.after);
    }
  }

  function LastTime(evs: seq<Event>, i: nat): int
    requires i <= |evs|
  {
    if i == 0 then 0 else evs[i - 1].times.after
  }

  /** In every run the breaker between cache and store goes through a run of its own, fed with the store's own
      results: so all that holds of runs of the breaker holds of it. */
  lemma {:induction false} BreakerTakesPart(cfg: Config, states: seq<State>, evs: seq<Event>, i: nat)
    requires Run(cfg, states, evs) && i <= |evs| && Ordered(evs)
    ensures Follows(cfg.breaker, Trace(cfg, states, evs, i), states[i].b, LastTime(evs, i))
  {
    if i > 0 {
      BreakerTakesPart(cfg, states, evs, i - 1);
      TakesPartStep(cfg, states, evs, i - 1);
    }
  }

  lemma TakesPartStep(cfg: Config, states: seq<State>, evs: seq<Event>, i: nat)
    requires Run(cfg, states, evs) && i < |evs| && Ordered(evs)
    requires Follows(cfg.breaker, Trace(cfg, states, evs, i), states[i].b, LastTime(evs, i))
    ensures Follows(cfg.breaker, Trace(cfg, states, evs, i + 1), states[i + 1].b, LastTime(evs, i + 1))
  {
    assert StepAt(cfg, states, evs, i);
    SeenFollows(cfg, states[i], evs[i], states[i + 1], Trace(cfg, states, evs, i), LastTime(evs, i));
  }
}
