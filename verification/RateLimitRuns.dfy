/**
 Idle eviction against a limiter that never forgets: the answers are the same if and only if
 a client evicted as early as possible has refilled its bucket by then. And no client is
 admitted more often than its rate and burst allow.
 */
module RateLimitRuns {
  import opened Base
  import opened RateLimit

  datatype Event =
    | Touch(call: nat, client: Str, at: int)   // first step of an Allow
    | Draw(call: nat, at: int)                 // its second step
    | Sweep(at: int)                           // evictIdle

  datatype Pending = Pending(client: Str, bucket: nat, at: int)

  /** The limiter; beside it the reference, one bucket per client, never evicted (a client that
      has not drawn yet has a full one); the Allows between their steps; and both sides' answers. */
  datatype System = System(table: Table, reference: map<Str, Bucket>, pending: map<nat, Pending>,
                           clock: int, answers: seq<bool>, expected: seq<bool>)

  function Start(p: Params): System {
    System(NewTable(p, 0), map[], map[], 0, [], [])
  }

  function RefBucket(p: Params, reference: map<Str, Bucket>, client: Str, t: int): Bucket {
    if client in reference then reference[client] else Fresh(p, t)
  }

  predicate Feasible(p: Params, s: System, e: Event) {
    && e.at >= s.clock
    && (e.Touch? ==> e.call !in s.pending)
    && (e.Draw? ==> e.call in s.pending && e.at <= s.pending[e.call].at + p.delay
                    && s.pending[e.call].bucket in s.table.heap)
  }

  function Next(p: Params, s: System, e: Event): System
    requires Feasible(p, s, e)
  {
    match e
    case Touch(call, client, at) =>
      var (table, bucket) := Look(p, s.table, client, at);
      s.(table := table, pending := s.pending[call := Pending(client, bucket, at)], clock := at)
    case Draw(call, at) =>
      var q := s.pending[call];
      var (table, ok) := Pull(p, s.table, q.bucket, at);
      var (b, want) := Take(p, RefBucket(p, s.reference, q.client, at), at);
      System(table, s.reference[q.client := b], s.pending - {call}, at, s.answers + [ok], s.expected + [want])
    case Sweep(at) =>
      s.(table := Evict(s.table, p.age, at), clock := at)
  }

  /** An event that is not feasible does not happen. */
  function Step(p: Params, s: System, e: Event): System {
    if Feasible(p, s, e) then Next(p, s, e) else s
  }

  function Reach(p: Params, evs: seq<Event>, k: nat): System
    requires k <= |evs|
  {
    if k == 0 then Start(p) else Step(p, Reach(p, evs, k - 1), evs[k - 1])
  }

  // ---------------------------------------------------------------------------
  // Buckets over time

  predicate Full(p: Params, b: Bucket, t: int) {
    Avail(p, b, t) == p.burst as real
  }

  /** Two buckets that cannot be told apart from time t on. */
  predicate Alike(p: Params, a: Bucket, b: Bucket, t: int) {
    a == b || (Full(p, a, t) && Full(p, b, t))
  }

  lemma {:induction false} EarnedAdds(rate: real, d: nat, e: nat)
    requires rate >= 0.0
    ensures Earned(rate, d + e) == Earned(rate, d) + Earned(rate, e) && Earned(rate, e) >= 0.0
    decreases e
  {
    if e > 0 {
      EarnedAdds(rate, d, e - 1);
    }
  }

  lemma Refills(p: Params, b: Bucket, t: int, u: int)
    requires p.rate >= 0.0 && t <= u
    ensures Avail(p, b, t) <= Avail(p, b, u) <= p.burst as real
    ensures Avail(p, b, u) <= Avail(p, b, t) + Earned(p.rate, u - t)
  {
    var d := if t < b.last then 0 else t - b.last;
    var e := if u < b.last then 0 else u - b.last;
    EarnedAdds(p.rate, d, e - d);
    EarnedAdds(p.rate, e - d, u - t - (e - d));
  }

  lemma AlikeLater(p: Params, a: Bucket, b: Bucket, t: int, u: int)
    requires p.rate >= 0.0 && t <= u && Alike(p, a, b, t)
    ensures Alike(p, a, b, u) && Avail(p, a, u) == Avail(p, b, u)
  {
    Refills(p, a, t, u);
    Refills(p, b, t, u);
  }

  lemma FreshIsFull(p: Params, t: int, u: int)
    requires p.rate >= 0.0 && t <= u
    ensures Full(p, Fresh(p, t), u)
  {
    Refills(p, Fresh(p, t), t, u);
  }

  /** Alike buckets give the same answer and stay alike. */
  lemma TakeAlike(p: Params, a: Bucket, b: Bucket, t: int)
    requires p.rate >= 0.0 && Alike(p, a, b, t)
    ensures Take(p, a, t).1 == Take(p, b, t).1 && Alike(p, Take(p, a, t).0, Take(p, b, t).0, t)
  {
    AlikeLater(p, a, b, t, t);
  }

  /** A bucket last drawn from at least age + 1 - delay ago has refilled, if that is long enough. */
  predicate Generous(p: Params)
    requires p.Sane()
  {
    p.burst as real <= Earned(p.rate, p.age + 1 - p.delay)
  }

  lemma IdleBucketIsFull(p: Params, b: Bucket, lastAccess: int, now: int)
    requires p.Sane() && Generous(p) && b.tokens >= 0.0
    requires b.last <= lastAccess + p.delay && now - lastAccess > p.age
    ensures Full(p, b, now)
  {
    var enough := p.age + 1 - p.delay;
    EarnedAdds(p.rate, enough, now - b.last - enough);
  }

  // ---------------------------------------------------------------------------
  // What every step keeps

  /** A client's slot: its bucket is as good as the reference, not drawn from later than `delay` after
      the last access, and nobody else's. */
  predicate SlotOk(p: Params, s: System, c: Str)
    requires c in s.table.slots
  {
    var slot := s.table.slots[c];
    && c != [] && 0 < slot.bucket < s.table.next && slot.bucket in s.table.heap
    && Alike(p, s.table.heap[slot.bucket], RefBucket(p, s.reference, c, s.clock), s.clock)
    && s.table.heap[slot.bucket].tokens >= 0.0
    && s.table.heap[slot.bucket].last <= slot.lastAccess + p.delay
    && slot.lastAccess <= s.clock
  }

  predicate Unshared(tb: Table) {
    forall c, d :: c in tb.slots && d in tb.slots && tb.slots[c].bucket == tb.slots[d].bucket ==> c == d
  }

  /** A pending Allow that may still draw holds the bucket its client's slot names. */
  predicate PendingOk(p: Params, s: System, q: Pending) {
    q.at + p.delay >= s.clock ==>
      if q.client == [] then q.bucket == 0
      else q.client in s.table.slots && s.table.slots[q.client].bucket == q.bucket
           && q.at <= s.table.slots[q.client].lastAccess
  }

  ghost predicate Invariant(p: Params, s: System) {
    && s.table.next > 0 && 0 in s.table.heap
    && (forall n :: n in s.table.heap ==> n < s.table.next)
    && Alike(p, s.table.heap[0], RefBucket(p, s.reference, [], s.clock), s.clock)
    && (forall c :: c in s.table.slots ==> SlotOk(p, s, c))
    && (forall c :: c in s.reference && c != [] && c !in s.table.slots ==> Full(p, s.reference[c], s.clock))
    && Unshared(s.table)
    && (forall q :: q in s.pending ==> PendingOk(p, s, s.pending[q]))
    && s.answers == s.expected
  }

  lemma RefLater(p: Params, a: Bucket, reference: map<Str, Bucket>, c: Str, t: int, u: int)
    requires p.rate >= 0.0 && t <= u && Alike(p, a, RefBucket(p, reference, c, t), t)
    ensures Alike(p, a, RefBucket(p, reference, c, u), u)
  {
    AlikeLater(p, a, RefBucket(p, reference, c, t), t, u);
    FreshIsFull(p, t, t);
    FreshIsFull(p, u, u);
    Refills(p, a, t, u);
  }

  /** Time passing keeps everything. */
  lemma LaterKeeps(p: Params, s: System, at: int)
    requires p.Sane() && Invariant(p, s) && at >= s.clock
    ensures Invariant(p, s.(clock := at))
  {
    var s' := s.(clock := at);
    RefLater(p, s.table.heap[0], s.reference, [], s.clock, at);
    forall c | c in s'.table.slots ensures SlotOk(p, s', c) {
      assert SlotOk(p, s, c);
      RefLater(p, s.table.heap[s.table.slots[c].bucket], s.reference, c, s.clock, at);
    }
    forall c | c in s'.reference && c != [] && c !in s'.table.slots ensures Full(p, s'.reference[c], at) {
      Refills(p, s.reference[c], s.clock, at);
    }
    forall q | q in s'.pending ensures PendingOk(p, s', s'.pending[q]) {
      assert PendingOk(p, s, s.pending[q]);
    }
  }

  lemma TouchKeeps(p: Params, s: System, e: Event)
    requires p.Sane() && Invariant(p, s) && e.Touch? && Feasible(p, s, e) && e.at == s.clock
    ensures Invariant(p, Next(p, s, e))
  {
    var s' := Next(p, s, e);
    FreshIsFull(p, s.clock, s.clock);
    forall c | c in s'.table.slots ensures SlotOk(p, s', c) {
      if c in s.table.slots {
        assert SlotOk(p, s, c);
      }
    }
    TouchUnshared(p, s, e);
    forall q | q in s'.pending ensures PendingOk(p, s', s'.pending[q]) {
      if q != e.call {
        assert PendingOk(p, s, s.pending[q]);
        assert s.pending[q].client in s.table.slots ==> SlotOk(p, s, s.pending[q].client);
      }
    }
  }

  lemma TouchUnshared(p: Params, s: System, e: Event)
    requires Invariant(p, s) && e.Touch? && Feasible(p, s, e)
    ensures Unshared(Next(p, s, e).table)
  {
    var s' := Next(p, s, e);
    forall c, d | c in s'.table.slots && d in s'.table.slots && s'.table.slots[c].bucket == s'.table.slots[d].bucket
      ensures c == d
    {
      assert c in s.table.slots ==> SlotOk(p, s, c);
      assert d in s.table.slots ==> SlotOk(p, s, d);
    }
  }

  lemma DrawKeeps(p: Params, s: System, e: Event)
    requires p.Sane() && Invariant(p, s) && e.Draw? && Feasible(p, s, e) && e.at == s.clock
    ensures Invariant(p, Next(p, s, e))
  {
    var s', q := Next(p, s, e), s.pending[e.call];
    assert PendingOk(p, s, q);
    if q.client != [] {
      assert SlotOk(p, s, q.client);
    }
    TakeAlike(p, s.table.heap[q.bucket], RefBucket(p, s.reference, q.client, e.at), e.at);
    forall c | c in s'.table.slots ensures SlotOk(p, s', c) {
      assert SlotOk(p, s, c);
    }
    forall r | r in s'.pending ensures PendingOk(p, s', s'.pending[r]) {
      assert PendingOk(p, s, s.pending[r]);
    }
  }

  lemma SweepKeeps(p: Params, s: System, e: Event)
    requires p.Sane() && Generous(p) && Invariant(p, s) && e.Sweep? && e.at == s.clock
    ensures Invariant(p, Next(p, s, e))
  {
    var s' := Next(p, s, e);
    forall c | c in s'.table.slots ensures SlotOk(p, s', c) {
      assert SlotOk(p, s, c);
    }
    forall c | c in s'.reference && c != [] && c !in s'.table.slots ensures Full(p, s'.reference[c], s'.clock) {
      if c in s.table.slots {
        assert SlotOk(p, s, c);
        IdleBucketIsFull(p, s.table.heap[s.table.slots[c].bucket], s.table.slots[c].lastAccess, e.at);
      }
    }
    forall q | q in s'.pending ensures PendingOk(p, s', s'.pending[q]) {
      assert PendingOk(p, s, s.pending[q]);
    }
  }

  lemma StepKeeps(p: Params, s: System, e: Event)
    requires p.Sane() && Generous(p) && Invariant(p, s)
    ensures Invariant(p, Step(p, s, e))
  {
    if Feasible(p, s, e) {
      var later := s.(clock := e.at);
      LaterKeeps(p, s, e.at);
      match e
      case Touch(_, _, _) => TouchKeeps(p, later, e);
      case Draw(_, _) => DrawKeeps(p, later, e);
      case Sweep(_) => SweepKeeps(p, later, e);
      assert Next(p, s, e) == Next(p, later, e);
    }
  }

  lemma {:induction false} ReachKeeps(p: Params, evs: seq<Event>, k: nat)
    requires p.Sane() && Generous(p) && k <= |evs|
    ensures Invariant(p, Reach(p, evs, k))
  {
    if k > 0 {
      ReachKeeps(p, evs, k - 1);
      StepKeeps(p, Reach(p, evs, k - 1), evs[k - 1]);
    }
  }

  /** When a client idle for longer than `age` has refilled, eviction cannot be noticed: every
      Allow of every run is answered as the limiter that never evicts would answer it. */
  lemma EvictionInvisible(p: Params, evs: seq<Event>)
    requires p.Sane() && Generous(p)
    ensures Reach(p, evs, |evs|).answers == Reach(p, evs, |evs|).expected
  {
    ReachKeeps(p, evs, |evs|);
  }

  // ---------------------------------------------------------------------------
  // Runs and the admissions in them

  predicate StepFeasible(p: Params, evs: seq<Event>, k: nat)
    requires k < |evs|
  {
    Feasible(p, Reach(p, evs, k), evs[k])
  }

  predicate Run(p: Params, evs: seq<Event>) {
    forall k :: 0 <= k < |evs| ==> StepFeasible(p, evs, k)
  }

  /** Event `k` is a draw of `client` that is allowed. */
  predicate Allowed(p: Params, s: System, e: Event, client: Str)
    requires Feasible(p, s, e)
  {
    e.Draw? && s.pending[e.call].client == client && Pull(p, s.table, s.pending[e.call].bucket, e.at).1
  }

  /** How many Allows of `client` succeed in events `from` to `to`. */
  function Admissions(p: Params, evs: seq<Event>, client: Str, from: nat, to: nat): nat
    requires from <= to <= |evs|
  {
    if from == to then 0
    else
      var s := Reach(p, evs, to - 1);
      Admissions(p, evs, client, from, to - 1)
      + if Feasible(p, s, evs[to - 1]) && Allowed(p, s, evs[to - 1], client) then 1 else 0
  }

  // ---------------------------------------------------------------------------
  // Otherwise it can be noticed

  lemma {:induction false} SamePrefix(p: Params, evs: seq<Event>, e: Event, k: nat)
    requires k <= |evs|
    ensures Reach(p, evs + [e], k) == Reach(p, evs, k)
  {
    if k > 0 {
      SamePrefix(p, evs, e, k - 1);
    }
  }

  const CLIENT: Str := [1]

  function Final(p: Params, evs: seq<Event>): System {
    Reach(p, evs, |evs|)
  }

  lemma RunExtends(p: Params, evs: seq<Event>, e: Event)
    requires Run(p, evs) && Feasible(p, Final(p, evs), e)
    ensures Run(p, evs + [e])
  {
    forall k | 0 <= k < |evs + [e]| ensures StepFeasible(p, evs + [e], k) {
      SamePrefix(p, evs, e, k);
      assert k < |evs| ==> StepFeasible(p, evs, k);
    }
  }

  lemma {:induction false} SameAdmissionsBefore(p: Params, evs: seq<Event>, e: Event, client: Str, i: nat, k: nat)
    requires i <= k <= |evs|
    ensures Admissions(p, evs + [e], client, i, k) == Admissions(p, evs, client, i, k)
    decreases k
  {
    if i < k {
      SameAdmissionsBefore(p, evs, e, client, i, k - 1);
      SamePrefix(p, evs, e, k - 1);
    }
  }

  /** Since event `from`, at time `delay`, the client has been admitted `n` times. */
  predicate Counts(p: Params, evs: seq<Event>, from: nat, n: int) {
    && Run(p, evs) && from < |evs| && evs[from].at == p.delay
    && Admissions(p, evs, CLIENT, from, |evs|) == n
  }

  lemma CountsMore(p: Params, evs: seq<Event>, e: Event, from: nat, n: int)
    requires Counts(p, evs, from, n) && Feasible(p, Final(p, evs), e)
    ensures Counts(p, evs + [e], from, n + if Allowed(p, Final(p, evs), e, CLIENT) then 1 else 0)
  {
    RunExtends(p, evs, e);
    SameAdmissionsBefore(p, evs, e, CLIENT, from, |evs|);
    SamePrefix(p, evs, e, |evs|);
  }

  lemma CountsFirst(p: Params, evs: seq<Event>, e: Event)
    requires Run(p, evs) && Feasible(p, Final(p, evs), e) && e.at == p.delay
    ensures Counts(p, evs + [e], |evs|, if Allowed(p, Final(p, evs), e, CLIENT) then 1 else 0)
  {
    RunExtends(p, evs, e);
    SamePrefix(p, evs, e, |evs|);
    assert Admissions(p, evs + [e], CLIENT, |evs|, |evs|) == 0;
  }

  lemma Extend(p: Params, evs: seq<Event>, e: Event) returns (r: seq<Event>)
    requires Feasible(p, Final(p, evs), e)
    ensures r == evs + [e] && Final(p, r) == Next(p, Final(p, evs), e)
    ensures Run(p, evs) ==> Run(p, r)
  {
    if Run(p, evs) {
      RunExtends(p, evs, e);
    }
    r := evs + [e];
    SamePrefix(p, evs, e, |evs|);
    assert Reach(p, r, |r|) == Step(p, Reach(p, r, |evs|), r[|evs|]);
  }

  /** `burst` Allows of one client look its bucket up at time 0. */
  lemma TouchAll(p: Params) returns (evs: seq<Event>)
    requires p.Sane() && p.burst >= 1
    ensures var s := Final(p, evs);
            && s.table.slots == map[CLIENT := Slot(1, 0)] && s.table.next == 2
            && s.table.heap == map[0 := Fresh(p, 0), 1 := Fresh(p, 0)]
            && s.reference == map[] && s.clock == 0 && s.answers == s.expected == []
            && forall i :: 0 <= i < p.burst ==> i in s.pending && s.pending[i] == Pending(CLIENT, 1, 0)
    ensures Run(p, evs)
  {
    evs := Extend(p, [], Touch(0, CLIENT, 0));
    var n := 1;
    while n < p.burst
      invariant 1 <= n <= p.burst
      invariant Final(p, evs).table.slots == map[CLIENT := Slot(1, 0)] && Final(p, evs).table.next == 2
      invariant Final(p, evs).table.heap == map[0 := Fresh(p, 0), 1 := Fresh(p, 0)]
      invariant Final(p, evs).reference == map[] && Final(p, evs).clock == 0
      invariant Final(p, evs).answers == Final(p, evs).expected == []
      invariant forall i :: i in Final(p, evs).pending <==> 0 <= i < n
      invariant Run(p, evs)
      invariant forall i :: 0 <= i < n ==> Final(p, evs).pending[i] == Pending(CLIENT, 1, 0)
    {
      evs := Extend(p, evs, Touch(n, CLIENT, 0));
      n := n + 1;
    }
  }

  /** One draw from buckets that both have a token. */
  lemma DrawBoth(p: Params, s: System, e: Event)
    requires p.burst >= 1 && e.Draw? && Feasible(p, s, e)
    requires Avail(p, s.table.heap[s.pending[e.call].bucket], e.at) >= 1.0
    ensures var q, s' := s.pending[e.call], Next(p, s, e);
            var a := Avail(p, s.table.heap[q.bucket], e.at) - 1.0;
            var r := RefBucket(p, s.reference, q.client, e.at);
            && s'.table == s.table.(heap := s.table.heap[q.bucket := Bucket(a, e.at)])
            && Avail(p, Bucket(a, e.at), e.at) == a
            && q.client in s'.reference && Allowed(p, s, e, q.client)
            && (Avail(p, r, e.at) >= 1.0 ==> s'.reference[q.client] == Bucket(Avail(p, r, e.at) - 1.0, e.at)
                                             && s'.answers == s.answers + [true] && s'.expected == s.expected + [true])
            && (Avail(p, r, e.at) < 1.0 ==> s'.answers == s.answers + [true] && s'.expected == s.expected + [false])
  {
  }

  /** They all draw at time `delay`, which empties the bucket. */
  lemma DrainAll(p: Params) returns (evs: seq<Event>, from: nat)
    requires p.Sane() && p.burst >= 1
    ensures var s := Final(p, evs);
            && s.table.slots == map[CLIENT := Slot(1, 0)] && s.table.next == 2
            && CLIENT in s.reference && s.reference[CLIENT] == Bucket(0.0, p.delay)
            && s.clock == p.delay && s.answers == s.expected && 0 !in s.pending
    ensures Counts(p, evs, from, p.burst)
  {
    evs := TouchAll(p);
    from := |evs|;
    FreshIsFull(p, 0, p.delay);
    DrawBoth(p, Final(p, evs), Draw(0, p.delay));
    CountsFirst(p, evs, Draw(0, p.delay));
    evs := Extend(p, evs, Draw(0, p.delay));
    var n := 1;
    while n < p.burst
      invariant 1 <= n <= p.burst
      invariant Final(p, evs).table.slots == map[CLIENT := Slot(1, 0)] && Final(p, evs).table.next == 2
      invariant 1 in Final(p, evs).table.heap
      invariant Final(p, evs).table.heap[1] == Bucket((p.burst - n) as real, p.delay)
      invariant CLIENT in Final(p, evs).reference
      invariant Final(p, evs).reference[CLIENT] == Bucket((p.burst - n) as real, p.delay)
      invariant Final(p, evs).clock == p.delay && Final(p, evs).answers == Final(p, evs).expected
      invariant 0 !in Final(p, evs).pending && Counts(p, evs, from, n)
      invariant forall i :: n <= i < p.burst ==>
                              i in Final(p, evs).pending && Final(p, evs).pending[i] == Pending(CLIENT, 1, 0)
    {
      DrawBoth(p, Final(p, evs), Draw(n, p.delay));
      CountsMore(p, evs, Draw(n, p.delay), from, n);
      evs := Extend(p, evs, Draw(n, p.delay));
      n := n + 1;
    }
  }

  function Refill(p: Params): real
    requires p.Sane()
  {
    Earned(p.rate, p.age + 1 - p.delay)
  }

  /** The client asks for the n-th time after its eviction: its new bucket has burst - n tokens, the
      reference what has been refilled less n. */
  predicate Probing(p: Params, s: System, n: nat)
    requires p.Sane()
  {
    var now := p.age + 1;
    && s.clock == now && 0 in s.pending && s.pending[0] == Pending(CLIENT, 2, now)
    && CLIENT in s.table.slots && s.table.slots[CLIENT].bucket == 2 && 2 in s.table.heap
    && Avail(p, s.table.heap[2], now) == (p.burst - n) as real
    && CLIENT in s.reference && Avail(p, s.reference[CLIENT], now) == Refill(p) - n as real >= 0.0
    && s.answers == s.expected
  }

  lemma ProbeAgain(p: Params, s: System, n: nat)
    requires p.Sane() && !Generous(p) && Probing(p, s, n)
    ensures n < p.burst && Feasible(p, s, Draw(0, p.age + 1))
    ensures var d := Next(p, s, Draw(0, p.age + 1));
            && Feasible(p, d, Touch(0, CLIENT, p.age + 1))
            && var t := Next(p, d, Touch(0, CLIENT, p.age + 1));
               if Refill(p) - n as real >= 1.0 then Probing(p, t, n + 1) else t.answers != t.expected
  {
    var e := Draw(0, p.age + 1);
    assert n < p.burst;
    DrawBoth(p, s, e);
    var d := Next(p, s, e);
    if Refill(p) - n as real < 1.0 {
      assert d.answers[|s.answers|] != d.expected[|s.answers|];
    }
  }

  lemma EvictAndReturn(p: Params) returns (evs: seq<Event>, from: nat)
    requires p.Sane() && !Generous(p)
    ensures Probing(p, Final(p, evs), 0) && Counts(p, evs, from, p.burst) && evs[|evs| - 1].at == p.age + 1
  {
    var now := p.age + 1;
    EarnedAdds(p.rate, 0, now - p.delay);
    evs, from := DrainAll(p);
    CountsMore(p, evs, Sweep(now), from, p.burst);
    evs := Extend(p, evs, Sweep(now));
    assert Final(p, evs).table.slots == map[];
    CountsMore(p, evs, Touch(0, CLIENT, now), from, p.burst);
    evs := Extend(p, evs, Touch(0, CLIENT, now));
    assert Final(p, evs).table.heap[2] == Fresh(p, now);
  }

  /** If the bucket cannot have refilled by then, draining it, sweeping as early as an eviction can
      happen, and asking again tells the two limiters apart. */
  lemma EvictionNoticed(p: Params) returns (evs: seq<Event>)
    requires p.Sane() && !Generous(p)
    ensures Final(p, evs).answers != Final(p, evs).expected
  {
    var from;
    evs, from := EvictAndReturn(p);
    var n := 0;
    while Refill(p) - n as real >= 1.0
      invariant n <= p.burst && Probing(p, Final(p, evs), n)
      decreases p.burst - n
    {
      ProbeAgain(p, Final(p, evs), n);
      evs := Extend(p, evs, Draw(0, p.age + 1));
      evs := Extend(p, evs, Touch(0, CLIENT, p.age + 1));
      n := n + 1;
    }
    ProbeAgain(p, Final(p, evs), n);
    evs := Extend(p, evs, Draw(0, p.age + 1));
    evs := Extend(p, evs, Touch(0, CLIENT, p.age + 1));
  }

  /** Eviction is invisible in every run if and only if burst <= rate * (age + 1 - delay). */
  lemma EvictionInvisibleIff(p: Params)
    requires p.Sane()
    ensures (forall evs :: Final(p, evs).answers == Final(p, evs).expected)
            <==> p.burst as real <= p.rate * ((p.age + 1 - p.delay) as real)
  {
    EarnedIsProduct(p.rate, p.age + 1 - p.delay);
    if Generous(p) {
      forall evs ensures Final(p, evs).answers == Final(p, evs).expected {
        EvictionInvisible(p, evs);
      }
    } else {
      var evs := EvictionNoticed(p);
    }
  }

  /** The shipped limits (50 per second, burst 100, swept every 5 minutes with an age of twice that)
      are generous even if an Allow stalls for almost ten minutes between its steps. */
  lemma ShippedLimitsAreGenerous(delay: int)
    requires 0 <= delay <= 598_000_000_000
    ensures var p := Params(0.00000005, 100, 600_000_000_000, delay);
            p.Sane() && Generous(p)
  {
    EarnedIsProduct(0.00000005, 600_000_000_001 - delay);
  }

  // ---------------------------------------------------------------------------
  // The rate bound

  // The same counts and tokens on the side of the reference.

  predicate RefAllowed(p: Params, s: System, e: Event, client: Str)
    requires Feasible(p, s, e)
  {
    e.Draw? && s.pending[e.call].client == client && Take(p, RefBucket(p, s.reference, client, e.at), e.at).1
  }

  function RefAdmissions(p: Params, evs: seq<Event>, client: Str, from: nat, to: nat): nat
    requires from <= to <= |evs|
  {
    if from == to then 0
    else
      var s := Reach(p, evs, to - 1);
      RefAdmissions(p, evs, client, from, to - 1)
      + if Feasible(p, s, evs[to - 1]) && RefAllowed(p, s, evs[to - 1], client) then 1 else 0
  }

  function RefAvail(p: Params, s: System, client: Str, t: int): real {
    Avail(p, RefBucket(p, s.reference, client, t), t)
  }

  predicate Solvent(s: System) {
    forall c :: c in s.reference ==> s.reference[c].tokens >= 0.0
  }

  lemma SameAnswer(p: Params, s: System, e: Event, client: Str)
    requires Invariant(p, s) && Feasible(p, s, e) && Invariant(p, Next(p, s, e))
    ensures Allowed(p, s, e, client) <==> RefAllowed(p, s, e, client)
  {
    if e.Draw? {
      var s' := Next(p, s, e);
      assert s'.answers[|s.answers|] == s'.expected[|s.expected|];
    }
  }

  lemma SameAnswerAt(p: Params, evs: seq<Event>, k: nat, client: Str)
    requires p.Sane() && Generous(p) && k < |evs| && Feasible(p, Reach(p, evs, k), evs[k])
    ensures Allowed(p, Reach(p, evs, k), evs[k], client) <==> RefAllowed(p, Reach(p, evs, k), evs[k], client)
  {
    var s := Reach(p, evs, k);
    ReachKeeps(p, evs, k);
    StepKeeps(p, s, evs[k]);
    SameAnswer(p, s, evs[k], client);
  }

  lemma {:induction false} SameAdmissions(p: Params, evs: seq<Event>, client: Str, i: nat, k: nat)
    requires p.Sane() && Generous(p) && i <= k <= |evs|
    ensures Admissions(p, evs, client, i, k) == RefAdmissions(p, evs, client, i, k)
    decreases k
  {
    if i < k {
      SameAdmissions(p, evs, client, i, k - 1);
      if Feasible(p, Reach(p, evs, k - 1), evs[k - 1]) {
        SameAnswerAt(p, evs, k - 1, client);
      }
    }
  }

  lemma TakeCosts(p: Params, b: Bucket, t: int)
    requires p.Sane() && b.tokens >= 0.0
    ensures var (b', ok) := Take(p, b, t);
            b'.tokens >= 0.0 && Avail(p, b', t) + (if ok then 1.0 else 0.0) == Avail(p, b, t)
  {
  }

  /** An event costs the client's reference bucket exactly what it is granted. */
  lemma AdmissionCosts(p: Params, s: System, e: Event, client: Str)
    requires p.Sane() && Feasible(p, s, e) && Solvent(s)
    ensures Solvent(Next(p, s, e))
    ensures (if RefAllowed(p, s, e, client) then 1.0 else 0.0) + RefAvail(p, Next(p, s, e), client, e.at)
            == RefAvail(p, s, client, e.at)
  {
    if e.Draw? {
      TakeCosts(p, RefBucket(p, s.reference, s.pending[e.call].client, e.at), e.at);
    }
  }

  lemma RefRefills(p: Params, s: System, client: Str, t: int, u: int)
    requires p.Sane() && t <= u
    ensures RefAvail(p, s, client, u) <= p.burst as real
    ensures RefAvail(p, s, client, u) <= RefAvail(p, s, client, t) + Earned(p.rate, u - t)
  {
    EarnedAdds(p.rate, 0, u - t);
    Refills(p, RefBucket(p, s.reference, client, u), t, u);
    FreshIsFull(p, t, t);
    FreshIsFull(p, u, u);
  }

  lemma {:induction false} ReachSolvent(p: Params, evs: seq<Event>, k: nat)
    requires p.Sane() && k <= |evs|
    ensures Solvent(Reach(p, evs, k))
  {
    if k > 0 {
      ReachSolvent(p, evs, k - 1);
      if Feasible(p, Reach(p, evs, k - 1), evs[k - 1]) {
        AdmissionCosts(p, Reach(p, evs, k - 1), evs[k - 1], []);
      }
    }
  }

  function Granted(p: Params, s: System, e: Event, client: Str): int
    requires Feasible(p, s, e)
  {
    if RefAllowed(p, s, e, client) then 1 else 0
  }

  predicate InBudget(p: Params, s: System, client: Str, count: int, since: int, t: int)
    requires since <= t
  {
    count as real + RefAvail(p, s, client, t) <= p.burst as real + Earned(p.rate, t - since)
  }

  /** One event keeps what was granted and what is left within a full bucket and the refill. */
  lemma BudgetStep(p: Params, s: System, e: Event, client: Str, count: int, since: int)
    requires p.Sane() && Feasible(p, s, e) && Solvent(s)
    requires since <= s.clock && InBudget(p, s, client, count, since, s.clock)
    ensures InBudget(p, Next(p, s, e), client, count + Granted(p, s, e, client), since, e.at)
  {
    AdmissionCosts(p, s, e, client);
    RefRefills(p, s, client, s.clock, e.at);
    EarnedAdds(p.rate, s.clock - since, e.at - s.clock);
  }

  lemma BudgetStart(p: Params, s: System, e: Event, client: Str)
    requires p.Sane() && Feasible(p, s, e) && Solvent(s)
    ensures InBudget(p, Next(p, s, e), client, Granted(p, s, e, client), e.at, e.at)
  {
    AdmissionCosts(p, s, e, client);
    RefRefills(p, s, client, e.at, e.at);
  }

  lemma {:induction false} WindowBudget(p: Params, evs: seq<Event>, client: Str, i: nat, k: nat)
    requires p.Sane() && Run(p, evs) && i < k <= |evs|
    ensures Reach(p, evs, k).clock == evs[k - 1].at >= evs[i].at
    ensures InBudget(p, Reach(p, evs, k), client, RefAdmissions(p, evs, client, i, k), evs[i].at, evs[k - 1].at)
    decreases k
  {
    var s := Reach(p, evs, k - 1);
    assert StepFeasible(p, evs, k - 1);
    ReachSolvent(p, evs, k - 1);
    if k == i + 1 {
      assert RefAdmissions(p, evs, client, i, i) == 0;
      BudgetStart(p, s, evs[i], client);
    } else {
      WindowBudget(p, evs, client, i, k - 1);
      BudgetStep(p, s, evs[k - 1], client, RefAdmissions(p, evs, client, i, k - 1), evs[i].at);
    }
  }

  lemma AvailNonNegative(p: Params, b: Bucket, t: int)
    requires p.Sane() && b.tokens >= 0.0
    ensures Avail(p, b, t) >= 0.0
  {
    EarnedAdds(p.rate, 0, if t < b.last then 0 else t - b.last);
  }

  lemma RateBudget(p: Params, evs: seq<Event>, client: Str, i: nat, k: nat)
    requires p.Sane() && Generous(p) && Run(p, evs) && i < k <= |evs|
    ensures evs[k - 1].at >= evs[i].at
    ensures Admissions(p, evs, client, i, k) as real <= p.burst as real + Earned(p.rate, evs[k - 1].at - evs[i].at)
  {
    SameAdmissions(p, evs, client, i, k);
    WindowBudget(p, evs, client, i, k);
    ReachSolvent(p, evs, k);
    AvailNonNegative(p, RefBucket(p, Reach(p, evs, k).reference, client, evs[k - 1].at), evs[k - 1].at);
  }

  /** In any window of a run a client is admitted at most burst + rate * T times. */
  predicate Bounded(p: Params, evs: seq<Event>, client: Str, i: nat, k: nat) {
    i < k <= |evs| ==>
      Admissions(p, evs, client, i, k) as real <= p.burst as real + p.rate * ((evs[k - 1].at - evs[i].at) as real)
  }

  lemma EarnedBounds(p: Params, count: int, elapsed: nat)
    requires count as real <= p.burst as real + Earned(p.rate, elapsed)
    ensures count as real <= p.burst as real + p.rate * (elapsed as real)
  {
    EarnedIsProduct(p.rate, elapsed);
  }

  lemma GenerousIsBounded(p: Params, evs: seq<Event>, client: Str, i: nat, k: nat)
    requires p.Sane() && Generous(p) && Run(p, evs)
    ensures Bounded(p, evs, client, i, k)
  {
    if i < k <= |evs| {
      RateBudget(p, evs, client, i, k);
      EarnedBounds(p, Admissions(p, evs, client, i, k), evs[k - 1].at - evs[i].at);
    }
  }

  /** The evicted client is back and has `n` tokens left. */
  predicate Back(p: Params, s: System, n: int) {
    var now := p.age + 1;
    && s.clock == now && 0 in s.pending && s.pending[0] == Pending(CLIENT, 2, now) && 0 <= p.delay
    && CLIENT in s.table.slots && s.table.slots[CLIENT].bucket == 2 && 2 in s.table.heap
    && Avail(p, s.table.heap[2], now) == n as real
  }

  lemma BackAgain(p: Params, s: System, n: nat)
    requires p.burst >= n && Back(p, s, n) && n > 0
    ensures Feasible(p, s, Draw(0, p.age + 1)) && Allowed(p, s, Draw(0, p.age + 1), CLIENT)
    ensures var d := Next(p, s, Draw(0, p.age + 1));
            && Feasible(p, d, Touch(0, CLIENT, p.age + 1))
            && Back(p, Next(p, d, Touch(0, CLIENT, p.age + 1)), n - 1)
  {
    DrawBoth(p, s, Draw(0, p.age + 1));
  }

  /** Otherwise a client that drains its bucket, is evicted and drains the new one is admitted 2 * burst
      times in a window of age + 1 - delay. */
  lemma TwiceTheBurst(p: Params) returns (evs: seq<Event>, from: nat)
    requires p.Sane() && !Generous(p)
    ensures Counts(p, evs, from, 2 * p.burst) && evs[|evs| - 1].at == p.age + 1
  {
    var now := p.age + 1;
    evs, from := EvictAndReturn(p);
    var n := p.burst;
    while n > 0
      invariant 0 <= n <= p.burst && Back(p, Final(p, evs), n)
      invariant Counts(p, evs, from, 2 * p.burst - n) && evs[|evs| - 1].at == now
    {
      BackAgain(p, Final(p, evs), n);
      CountsMore(p, evs, Draw(0, now), from, 2 * p.burst - n);
      evs := Extend(p, evs, Draw(0, now));
      CountsMore(p, evs, Touch(0, CLIENT, now), from, 2 * p.burst - n + 1);
      evs := Extend(p, evs, Touch(0, CLIENT, now));
      n := n - 1;
    }
  }

  /** The bound on a client's rate holds in every window of every run, evictions included, if and only
      if burst <= rate * (age + 1 - delay). */
  lemma RateIsBoundedIff(p: Params)
    requires p.Sane()
    ensures (forall evs, client, i: nat, k: nat :: Run(p, evs) ==> Bounded(p, evs, client, i, k))
            <==> p.burst as real <= p.rate * ((p.age + 1 - p.delay) as real)
  {
    EarnedIsProduct(p.rate, p.age + 1 - p.delay);
    if Generous(p) {
      forall evs, client, i: nat, k: nat | Run(p, evs) ensures Bounded(p, evs, client, i, k) {
        GenerousIsBounded(p, evs, client, i, k);
      }
    } else {
      var evs, from := TwiceTheBurst(p);
      assert !Bounded(p, evs, CLIENT, from, |evs|);
    }
  }
}
