/**
 The per-client rate limiter with idle eviction. `rate.Limiter` is taken to be an ordinary
 token bucket over the reals; time is in integer nanoseconds and the rate in tokens per
 nanosecond. Looking a client's bucket up (under the limiter's mutex) and taking a token
 from it (under the bucket's own) are separate steps, as they are in Allow.
 */
module RateLimit {
  import opened Base

  /** `age` is the idle time after which a client is evicted; `delay` bounds the time between the two steps
      of one Allow. */
  datatype Params = Params(rate: real, burst: int, age: int, delay: int) {
    predicate Sane() {
      rate >= 0.0 && burst >= 0 && 0 <= delay <= age
    }
  }

  datatype Bucket = Bucket(tokens: real, last: int)

  function Fresh(p: Params, t: int): Bucket {
    Bucket(p.burst as real, t)
  }

  /** The tokens that accrue in `elapsed` nanoseconds, one nanosecond at a time. */
  function Earned(rate: real, elapsed: nat): real {
    if elapsed == 0 then 0.0 else Earned(rate, elapsed - 1) + rate
  }

  /** Which is rate * elapsed. */
  lemma {:induction false} EarnedIsProduct(rate: real, elapsed: nat)
    ensures Earned(rate, elapsed) == rate * (elapsed as real)
  {
    if elapsed > 0 {
      EarnedIsProduct(rate, elapsed - 1);
      assert rate * (elapsed as real) == rate * ((elapsed - 1) as real) + rate;
    }
  }

  /** The tokens available at time t. */
  function Avail(p: Params, b: Bucket, t: int): real {
    var elapsed := if t < b.last then 0 else t - b.last;
    var tokens := b.tokens + Earned(p.rate, elapsed);
    if tokens > p.burst as real then p.burst as real else tokens
  }

  /** Take a token if there is one; a refusal leaves the bucket as it was. */
  function Take(p: Params, b: Bucket, t: int): (Bucket, bool) {
    if Avail(p, b, t) >= 1.0 then (Bucket(Avail(p, b, t) - 1.0, t), true) else (b, false)
  }

  // ---------------------------------------------------------------------------
  // The limiter. Buckets are shared by reference, so they live in a heap of their own;
  // bucket 0 is the global one for calls without a client id.

  datatype Slot = Slot(bucket: nat, lastAccess: int)

  datatype Table = Table(slots: map<Str, Slot>, heap: map<nat, Bucket>, next: nat)

  function NewTable(p: Params, t: int): Table {
    Table(map[], map[0 := Fresh(p, t)], 1)
  }

  /** The first step of Allow: find or make the client's bucket and note the access. */
  function Look(p: Params, tb: Table, client: Str, t: int): (Table, nat) {
    if client == [] then (tb, 0)
    else if client in tb.slots then
      (tb.(slots := tb.slots[client := tb.slots[client].(lastAccess := t)]), tb.slots[client].bucket)
    else
      (Table(tb.slots[client := Slot(tb.next, t)], tb.heap[tb.next := Fresh(p, t)], tb.next + 1), tb.next)
  }

  /** The second step: take a token from the bucket found. */
  function Pull(p: Params, tb: Table, bucket: nat, t: int): (Table, bool)
    requires bucket in tb.heap
  {
    var (b, ok) := Take(p, tb.heap[bucket], t);
    (tb.(heap := tb.heap[bucket := b]), ok)
  }

  predicate Idle(slot: Slot, age: int, now: int) {
    now - slot.lastAccess > age
  }

  function Evict(tb: Table, age: int, now: int): Table {
    tb.(slots := map c | c in tb.slots && !Idle(tb.slots[c], age, now) :: tb.slots[c])
  }

  class PerClientRateLimiter {
    const p: Params
    var limiters: map<Str, Slot>
    var buckets: map<nat, Bucket>
    var next: nat

    ghost function View(): Table
      reads this
    {
      Table(limiters, buckets, next)
    }

    /** Every slot points at a bucket. */
    ghost predicate Valid()
      reads this
    {
      0 in buckets && forall c :: c in limiters ==> limiters[c].bucket in buckets
    }

    constructor (p: Params, now: int)
      ensures Valid() && this.p == p && View() == NewTable(p, now)
    {
      this.p := p;
      limiters, buckets, next := map[], map[0 := Fresh(p, now)], 1;
    }

    method Lookup(client: Str, now: int) returns (bucket: nat)
      requires Valid()
      modifies this
      ensures Valid() && (View(), bucket) == Look(p, old(View()), client, now) && bucket in buckets
    {
      if client == [] {
        return 0;
      }
      if client !in limiters {
        limiters := limiters[client := Slot(next, now)];
        buckets := buckets[next := Fresh(p, now)];
        next := next + 1;
      }
      limiters := limiters[client := limiters[client].(lastAccess := now)];
      assert limiters == Look(p, old(View()), client, now).0.slots;
      return limiters[client].bucket;
    }

    method TakeFrom(bucket: nat, now: int) returns (ok: bool)
      requires Valid() && bucket in buckets
      modifies this
      ensures Valid() && (View(), ok) == Pull(p, old(View()), bucket, now)
    {
      var tokens := Avail(p, buckets[bucket], now);
      ok := tokens >= 1.0;
      if ok {
        buckets := buckets[bucket := Bucket(tokens - 1.0, now)];
      }
      assert buckets == Pull(p, old(View()), bucket, now).0.heap;
    }

    /** Allow reads the clock twice: for the access time, and inside the bucket. */
    method Allow(client: Str, lookedUp: int, taken: int) returns (ok: bool)
      requires Valid()
      modifies this
      ensures Valid()
      ensures var (mid, bucket) := Look(p, old(View()), client, lookedUp);
              bucket in mid.heap && (View(), ok) == Pull(p, mid, bucket, taken)
    {
      var bucket := Lookup(client, lookedUp);
      ok := TakeFrom(bucket, taken);
    }

    /** Deletes the idle clients in map order. */
    method EvictIdle(age: int, now: int)
      requires Valid()
      modifies this
      ensures Valid() && View() == Evict(old(View()), age, now)
    {
      var rest := limiters.Keys;
      while rest != {}
        invariant rest <= limiters.Keys <= old(limiters).Keys
        invariant buckets == old(buckets) && next == old(next)
        invariant forall c :: c in limiters ==> limiters[c] == old(limiters)[c]
        invariant forall c :: c in old(limiters) && c !in rest ==>
                                (c in limiters <==> !Idle(old(limiters)[c], age, now))
        decreases |rest|
      {
        var c :| c in rest;
        rest := rest - {c};
        if now - limiters[c].lastAccess > age {
          limiters := limiters - {c};
        }
      }
    }
  }
}
