/**
 The decorators as objects: the circuit breaker around the in-memory repository, and the
 cache around the breaker. Their methods are proved to do what Stack says.
 */
module Repositories {
  import opened Base
  import opened Cache
  import opened Stack
  import Breaker
  import opened Memory

  class CircuitBreakerRepository {
    const repository: MemoryRepository
    const cfg: Breaker.Config
    var mode: Breaker.Mode
    var failureCount: nat
    var successCount: nat
    var halfOpenCount: nat
    var lastFailureAt: int
    var openSince: int

    ghost function View(): Breaker.State
      reads this
    {
      Breaker.State.State(mode, failureCount, successCount, halfOpenCount, lastFailureAt, openSince)
    }

    constructor (repository: MemoryRepository, cfg: Breaker.Config)
      ensures this.repository == repository && this.cfg == Breaker.Normalize(cfg) && View() == Breaker.FRESH
    {
      this.repository, this.cfg := repository, Breaker.Normalize(cfg);
      mode := Breaker.Closed;
      failureCount, successCount, halfOpenCount, lastFailureAt, openSince := 0, 0, 0, 0, 0;
    }

    method BeforeCall(now: int) returns (err: Option<Error>)
      modifies this
      ensures (View(), err) == Breaker.Before(cfg, old(View()), now)
    {
      match mode
      case Open =>
        if now - openSince > cfg.openTimeout {
          mode := Breaker.HalfOpen;
          successCount := 0;
          halfOpenCount := 0;
          halfOpenCount := halfOpenCount + 1;
          return None;
        }
        return Some(CircuitOpen);
      case HalfOpen =>
        if halfOpenCount >= cfg.maxHalfOpen {
          return Some(CircuitOpen);
        }
        halfOpenCount := halfOpenCount + 1;
        return None;
      case Closed =>
        return None;
    }

    method AfterCall(err: Option<Error>, now: int)
      modifies this
      ensures View() == Breaker.After(cfg, old(View()), err, now)
    {
      if err == None {
        match mode {
          case HalfOpen =>
            successCount := successCount + 1;
            if successCount >= cfg.successThreshold {
              mode := Breaker.Closed;
              ResetCounts();
            }
          case Closed => failureCount := 0;
          case Open =>
        }
        return;
      }
      if err == Some(Unavailable) {
        return;
      }
      lastFailureAt := now;
      if mode == Breaker.HalfOpen {
        failureCount := 0;
        mode := Breaker.Open;
        openSince := now;
        return;
      }
      failureCount := failureCount + 1;
      if mode == Breaker.Closed && failureCount >= cfg.failureThreshold {
        mode := Breaker.Open;
        openSince := now;
      }
    }

    method ResetCounts()
      modifies this
      ensures View() == old(View()).(failures := 0, successes := 0, halfOpen := 0)
    {
      failureCount, successCount, halfOpenCount := 0, 0, 0;
    }

    method ResetForce()
      modifies this
      ensures View() == Breaker.Reset(old(View()))
    {
      mode := Breaker.Closed;
      ResetCounts();
    }

    /** The pattern of every wrapped operation: admit, call the store, report its error. */
    method Call(op: Op, t: Times) returns (r: Reply)
      modifies this, repository
      ensures r == GuardedReply(cfg, old(View()), old(repository.View()), t, op)
      ensures repository.View() == GuardedStore(cfg, old(View()), old(repository.View()), t, op)
      ensures View() == GuardedBreaker(cfg, old(View()), t, r.Err())
    {
      var rejected := BeforeCall(t.before);
      if rejected.Some? {
        return Failed(rejected.value);
      }
      r := repository.Call(op);
      AfterCall(r.Err(), t.after);
    }

    method Close() returns (r: Reply)
      modifies this, repository
      ensures View() == Breaker.Reset(old(View()))
      ensures repository.View() == Effect(old(repository.View()), Op.Close) && r == Done
    {
      ResetForce();
      r := repository.Close();
    }
  }

  class CacheRepository {
    const inner: CircuitBreakerRepository
    const ttl: int
    const maxEntries: int
    var m: Entries

    ghost function Cfg(): Config {
      Config(inner.cfg, ttl, maxEntries)
    }

    ghost function View(): Stack.State
      reads this, inner, inner.repository
    {
      Stack.State.State(m, inner.View(), inner.repository.View())
    }

    ghost predicate Valid()
      reads this, inner, inner.repository
    {
      Cfg().Normal() && Coherent(Cfg(), View())
    }

    constructor (inner: CircuitBreakerRepository, ttl: int, maxEntries: int)
      ensures this.inner == inner && m == map[] && this.ttl > 0 && this.maxEntries > 0
      ensures inner.cfg.Normal() && [] !in inner.repository.users ==> Valid()
      ensures this.ttl == ttl || (ttl <= 0 && this.ttl == 30_000_000_000)
      ensures this.maxEntries == maxEntries || (maxEntries <= 0 && this.maxEntries == 10000)
    {
      this.inner := inner;
      this.ttl := if ttl <= 0 then 30_000_000_000 else ttl;
      this.maxEntries := if maxEntries <= 0 then 10000 else maxEntries;
      m := map[];
    }

    method Lookup(key: Str, now: int) returns (found: Option<User>)
      ensures found == if FreshHit(m, key, now) then Some(m[key].user) else None
    {
      if key !in m {
        return None;
      }
      if now > m[key].exp {
        return None;
      }
      return Some(m[key].user);
    }

    method LookupStale(key: Str) returns (found: Option<User>)
      ensures found == if key in m then Some(m[key].user) else None
    {
      if key !in m {
        return None;
      }
      return Some(m[key].user);
    }

    method Insert(key: Str, user: User, evict: int, now: int)
      modifies this`m
      ensures Sets(old(m), maxEntries, ttl, key, user, evict, now, m)
    {
      if key !in m {
        Evict(evict);
      }
      assert MakesRoom(old(m), maxEntries, key, evict, m);
      m := m[key := Entry(user, now + ttl)];
    }

    /** Drops expired entries, then the one closest to expiring if there is still no room. */
    method Evict(now: int)
      modifies this`m
      ensures Evicts(old(m), maxEntries, now, m)
    {
      if |m| < maxEntries {
        return;
      }
      DropExpired(now);
      if |m| < maxEntries {
        return;
      }
      var oldest := ScanOldest();
      ghost var live := m;
      ghost var order :| Enumerates(order, live.Keys) && oldest == Oldest(order, live);
      if oldest != [] {
        m := m - {oldest};
      }
      assert Enumerates(order, live.Keys) && m == WithoutOldest(order, live);
    }

    method DropExpired(now: int)
      modifies this`m
      ensures m == Unexpired(old(m), now)
    {
      var rest := m.Keys;
      while rest != {}
        invariant rest <= m.Keys <= old(m).Keys
        invariant forall k :: k in m ==> m[k] == old(m)[k]
        invariant forall k :: k in old(m) && k !in rest ==> (k in m <==> !IsExpired(old(m)[k], now))
        decreases |rest|
      {
        var k :| k in rest;
        rest := rest - {k};
        if now > m[k].exp {
          m := m - {k};
        }
      }
    }

    /** The scan, in whatever order the map is visited. */
    method ScanOldest() returns (oldestKey: Str)
      ensures exists order :: Enumerates(order, m.Keys) && oldestKey == Oldest(order, m)
    {
      oldestKey := [];
      var oldestExp := 0;
      ghost var order: seq<Str> := [];
      var rest := m.Keys;
      while rest != {}
        invariant rest <= m.Keys
        invariant forall k :: k in order <==> k in m && k !in rest
        invariant forall i, j :: 0 <= i < j < |order| ==> order[i] != order[j]
        invariant oldestKey == Oldest(order, m)
        invariant oldestKey != [] ==> oldestExp == m[oldestKey].exp
        decreases |rest|
      {
        var k :| k in rest;
        rest := rest - {k};
        if oldestKey == [] || m[k].exp < oldestExp {
          oldestKey, oldestExp := k, m[k].exp;
        }
        ghost var longer := order + [k];
        assert longer[..|order|] == order;
        order := longer;
      }
      assert Enumerates(order, m.Keys);
    }

    method Get(ctx: Context, id: Str, t: Times) returns (r: Reply)
      requires Valid()
      modifies this, inner, inner.repository
      ensures Valid() && Steps(Cfg(), old(View()), Op.Get(ctx, id), t, View(), r)
      ensures r.Got? ==> id in inner.repository.users && r.user == inner.repository.users[id]
    {
      var hit := Lookup(id, t.lookup);
      if hit.Some? {
        r := Got(hit.value);
      } else {
        r := inner.Call(Op.Get(ctx, id), t);
        if r.Failed? {
          if r.error.Is(Unavailable) || r.error.Is(Canceled) || r.error.Is(DeadlineExceeded) {
            var stale := LookupStale(id);
            if stale.Some? {
              r := Got(stale.value);
            }
          }
        } else if r.Got? {
          Insert(id, r.user, t.evict, t.fill);
        }
      }
      StepsKeep(Cfg(), old(View()), Op.Get(ctx, id), t, View(), r);
    }

    method Update(ctx: Context, user: Option<User>, t: Times) returns (r: Reply)
      requires Valid()
      modifies this, inner, inner.repository
      ensures Valid() && Steps(Cfg(), old(View()), Op.Update(ctx, user), t, View(), r)
    {
      r := inner.Call(Op.Update(ctx, user), t);
      if !r.Failed? && user.Some? {
        m := m - {user.value.id};
      }
      StepsKeep(Cfg(), old(View()), Op.Update(ctx, user), t, View(), r);
    }

    method ReadModifyUpdate(ctx: Context, id: Str, mutate: Option<Mutation>, t: Times) returns (r: Reply)
      requires Valid()
      modifies this, inner, inner.repository
      ensures Valid() && Steps(Cfg(), old(View()), Op.Modify(ctx, id, mutate), t, View(), r)
      ensures r.Got? ==> id in inner.repository.users && r.user == inner.repository.users[id]
    {
      r := inner.Call(Op.Modify(ctx, id, mutate), t);
      if !r.Failed? {
        m := m - {id};
      } else if r.error.Is(Unavailable) {
        var stale := LookupStale(id);
        if stale.Some? {
          r := Got(stale.value);
        }
      }
      StepsKeep(Cfg(), old(View()), Op.Modify(ctx, id, mutate), t, View(), r);
    }

    method Delete(ctx: Context, id: Str, t: Times) returns (r: Reply)
      requires Valid()
      modifies this, inner, inner.repository
      ensures Valid() && Steps(Cfg(), old(View()), Op.Delete(ctx, id), t, View(), r)
    {
      r := inner.Call(Op.Delete(ctx, id), t);
      if !r.Failed? {
        m := m - {id};
      }
      StepsKeep(Cfg(), old(View()), Op.Delete(ctx, id), t, View(), r);
    }

    /** Create is passed on; CreateWithIdempotency, List and Ping are the embedded repository's. */
    method Forward(op: Op, t: Times) returns (r: Reply)
      requires Valid() && (op.Create? || op.CreateKeyed? || op.List? || op.Ping?)
      modifies this, inner, inner.repository
      ensures Valid() && Steps(Cfg(), old(View()), op, t, View(), r)
    {
      r := inner.Call(op, t);
      StepsKeep(Cfg(), old(View()), op, t, View(), r);
    }

    method Close(t: Times) returns (r: Reply)
      requires Valid()
      modifies this, inner, inner.repository
      ensures Valid() && Steps(Cfg(), old(View()), Op.Close, t, View(), r)
    {
      r := inner.Close();
      StepsKeep(Cfg(), old(View()), Op.Close, t, View(), r);
    }
  }
}
