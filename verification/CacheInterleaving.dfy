/**
 The cache under concurrency. A Get is a lookup, then a read of the store, then a fill; a
 write is a change of the store, then an invalidation. These steps interleave freely, so
 the cache can fall behind the store; the question is how far.
 */
module CacheInterleaving {
  import opened Base
  import opened Paging
  import opened Cache
  import opened Stack

  /** `latency` bounds the time from reading the store to filling the cache. */
  datatype Config = Config(ttl: int, maxEntries: int, latency: int)

  /** Where an answer came from: an entry with its expiry, or a read of the store and its time. */
  datatype Source = FromEntry(exp: int) | FromStore(at: int)

  /** Where a Get is that asked at time `asked`. `overtaken` records that the key was written after it was read. */
  datatype Progress =
    | Missed(key: Str, asked: int)
    | Fetched(key: Str, user: User, asked: int, at: int, overtaken: bool)
    | Answered(key: Str, user: User, asked: int, answered: int, source: Source)
    | Failed(key: Str)

  /** The store, the cache, the Gets, the keys of writes that have yet to invalidate; and as history
      the keys whose entry was filled by an overtaken Get. */
  datatype System = System(store: Store, m: Entries, gets: map<nat, Progress>, writes: map<nat, Str>,
                           now: int, raced: set<Str>)

  datatype Step =
    | Tick(now: int)
    | Lookup(call: nat, key: Str)
    | Read(call: nat)
    | ReadFails(call: nat, error: Error)
    | Fill(call: nat, evict: int, m: Entries)
    | Create(key: Str, user: User)
    | Write(call: nat, key: Str, value: Option<User>)
    | Invalidate(call: nat)

  ghost predicate Enabled(cfg: Config, s: System, step: Step) {
    match step
    case Tick(now) => now >= s.now
    case Lookup(c, _) => c !in s.gets
    case Read(c) => c in s.gets && s.gets[c].Missed?
    case ReadFails(c, _) => c in s.gets && s.gets[c].Missed?
    case Fill(c, evict, m) =>
      && evict <= s.now && c in s.gets && s.gets[c].Fetched? && s.now - s.gets[c].at <= cfg.latency
      && Sets(s.m, cfg.maxEntries, cfg.ttl, s.gets[c].key, s.gets[c].user, evict, s.now, m)
    case Create(key, _) => key !in s.store
    case Write(c, key, _) => c !in s.writes && key in s.store
    case Invalidate(c) => c in s.writes
  }

  function Overtake(gets: map<nat, Progress>, key: Str): map<nat, Progress> {
    map c | c in gets ::
      if gets[c].Fetched? && gets[c].key == key then gets[c].(overtaken := true) else gets[c]
  }

  /** An answer from the cached entry. */
  function Served(s: System, key: Str, asked: int): Progress
    requires key in s.m
  {
    Answered(key, s.m[key].user, asked, s.now, FromEntry(s.m[key].exp))
  }

  ghost function Apply(cfg: Config, s: System, step: Step): System
    requires Enabled(cfg, s, step)
  {
    match step
    case Tick(now) => s.(now := now)
    case Lookup(c, key) =>
      s.(gets := s.gets[c := if FreshHit(s.m, key, s.now) then Served(s, key, s.now) else Missed(key, s.now)])
    case Read(c) =>
      var key, asked := s.gets[c].key, s.gets[c].asked;
      s.(gets := s.gets[c := if key in s.store then Fetched(key, s.store[key], asked, s.now, false) else Failed(key)])
    case ReadFails(c, e) =>
      var key, asked := s.gets[c].key, s.gets[c].asked;
      s.(gets := s.gets[c := if ServesStale(e) && key in s.m then Served(s, key, asked) else Failed(key)])
    case Fill(c, _, m) =>
      var g := s.gets[c];
      s.(m := m, gets := s.gets[c := Answered(g.key, g.user, g.asked, s.now, FromStore(g.at))],
         raced := if g.overtaken then s.raced + {g.key} else s.raced - {g.key})
    case Create(key, u) => s.(store := s.store[key := u], gets := Overtake(s.gets, key))
    case Write(c, key, value) =>
      s.(store := if value.Some? then s.store[key := value.value] else s.store - {key},
         gets := Overtake(s.gets, key), writes := s.writes[c := key])
    case Invalidate(c) =>
      s.(m := s.m - {s.writes[c]}, raced := s.raced - {s.writes[c]}, writes := s.writes - {c})
  }

  ghost function Next(cfg: Config, s: System, step: Step): System {
    if Enabled(cfg, s, step) then Apply(cfg, s, step) else s
  }

  function Start(store: Store, now: int): System {
    System(store, map[], map[], map[], now, {})
  }

  ghost function Reach(cfg: Config, s: System, steps: seq<Step>, k: nat): System
    requires k <= |steps|
  {
    if k == 0 then s else Next(cfg, Reach(cfg, s, steps, k - 1), steps[k - 1])
  }

  // ---------------------------------------------------------------------------
  // Everything held was once the store's value

  /** After the first `j` steps the store had `u` under `key`. */
  ghost predicate Had(cfg: Config, s: System, steps: seq<Step>, j: nat, key: Str, u: User)
    requires j <= |steps|
  {
    var t := Reach(cfg, s, steps, j);
    key in t.store && t.store[key] == u
  }

  /** The store had `u` under `key` at time `at`, within the first `k` steps. */
  ghost predicate StoredAt(cfg: Config, s: System, steps: seq<Step>, k: nat, key: Str, u: User, at: int)
    requires k <= |steps|
  {
    exists j :: 0 <= j <= k && Had(cfg, s, steps, j, key, u) && Reach(cfg, s, steps, j).now == at
  }

  /** It did at time `since` or later. */
  ghost predicate WasStored(cfg: Config, s: System, steps: seq<Step>, k: nat, key: Str, u: User, since: int)
    requires k <= |steps|
  {
    exists at :: since <= at && StoredAt(cfg, s, steps, k, key, u, at)
  }

  lemma StoredAtStill(cfg: Config, s: System, steps: seq<Step>, i: nat, k: nat, key: Str, u: User, at: int)
    requires i <= k <= |steps| && StoredAt(cfg, s, steps, i, key, u, at)
    ensures StoredAt(cfg, s, steps, k, key, u, at)
  {
  }

  lemma WasStoredStill(cfg: Config, s: System, steps: seq<Step>, i: nat, k: nat, key: Str, u: User,
                       since: int, before: int)
    requires i <= k <= |steps| && before <= since && WasStored(cfg, s, steps, i, key, u, since)
    ensures WasStored(cfg, s, steps, k, key, u, before)
  {
    var at :| since <= at && StoredAt(cfg, s, steps, i, key, u, at);
    StoredAtStill(cfg, s, steps, i, k, key, u, at);
  }

  lemma EntryOrigin(cfg: Config, s: System, step: Step, key: Str)
    requires key in Next(cfg, s, step).m
    ensures var e := Next(cfg, s, step).m[key];
            || (key in s.m && s.m[key] == e)
            || (step.Fill? && step.call in s.gets && s.gets[step.call].Fetched? && s.gets[step.call].key == key
                && e == Entry(s.gets[step.call].user, s.now + cfg.ttl) && s.now - s.gets[step.call].at <= cfg.latency)
  {
    if step.Fill? && Enabled(cfg, s, step) {
      var g := s.gets[step.call];
      SetsOnlyKey(s.m, cfg.maxEntries, cfg.ttl, g.key, g.user, step.evict, s.now, step.m, key);
    }
  }

  lemma FetchOrigin(cfg: Config, s: System, step: Step, c: nat)
    requires c in Next(cfg, s, step).gets && Next(cfg, s, step).gets[c].Fetched?
    ensures var g := Next(cfg, s, step).gets[c];
            || (c in s.gets && s.gets[c].Fetched? && s.gets[c].(overtaken := g.overtaken) == g)
            || (g.key in s.store && s.store[g.key] == g.user && g.at == s.now)
  {
  }

  /** What a Get in flight has read was the store's value when it read it. */
  lemma {:induction false} FetchedWasStored(cfg: Config, s: System, steps: seq<Step>, k: nat, c: nat)
    requires k <= |steps| && s.gets == map[]
    requires c in Reach(cfg, s, steps, k).gets && Reach(cfg, s, steps, k).gets[c].Fetched?
    ensures var g := Reach(cfg, s, steps, k).gets[c];
            StoredAt(cfg, s, steps, k, g.key, g.user, g.at)
  {
    var p, g := Reach(cfg, s, steps, k - 1), Reach(cfg, s, steps, k).gets[c];
    FetchOrigin(cfg, p, steps[k - 1], c);
    if g.key in p.store && p.store[g.key] == g.user && g.at == p.now {
      assert Had(cfg, s, steps, k - 1, g.key, g.user);
    } else {
      FetchedWasStored(cfg, s, steps, k - 1, c);
      StoredAtStill(cfg, s, steps, k - 1, k, g.key, g.user, g.at);
    }
  }

  /** Every cached value was the store's value for its key at some earlier instant, no earlier than
      ttl + latency before it expires. */
  lemma {:induction false} EntryWasStored(cfg: Config, s: System, steps: seq<Step>, k: nat, key: Str)
    requires k <= |steps| && s.gets == map[] && s.m == map[] && key in Reach(cfg, s, steps, k).m
    ensures var e := Reach(cfg, s, steps, k).m[key];
            WasStored(cfg, s, steps, k, key, e.user, e.exp - cfg.ttl - cfg.latency)
  {
    var p, e := Reach(cfg, s, steps, k - 1), Reach(cfg, s, steps, k).m[key];
    var since := e.exp - cfg.ttl - cfg.latency;
    EntryOrigin(cfg, p, steps[k - 1], key);
    if key in p.m && p.m[key] == e {
      EntryWasStored(cfg, s, steps, k - 1, key);
      WasStoredStill(cfg, s, steps, k - 1, k, key, e.user, since, since);
    } else {
      var c := steps[k - 1].call;
      FetchedWasStored(cfg, s, steps, k - 1, c);
      StoredAtStill(cfg, s, steps, k - 1, k, key, e.user, p.gets[c].at);
    }
  }

  /** A fresh hit is at most ttl + latency behind: what it returns was current that recently. */
  lemma FreshHitIsRecent(cfg: Config, s: System, steps: seq<Step>, k: nat, key: Str)
    requires k <= |steps| && s.gets == map[] && s.m == map[]
    requires FreshHit(Reach(cfg, s, steps, k).m, key, Reach(cfg, s, steps, k).now)
    ensures var t := Reach(cfg, s, steps, k);
            WasStored(cfg, s, steps, k, key, t.m[key].user, t.now - cfg.ttl - cfg.latency)
  {
    var t := Reach(cfg, s, steps, k);
    EntryWasStored(cfg, s, steps, k, key);
    WasStoredStill(cfg, s, steps, k, k, key, t.m[key].user, t.m[key].exp - cfg.ttl - cfg.latency,
                   t.now - cfg.ttl - cfg.latency);
  }

  /** A Get reads the store between asking and answering. */
  predicate Timely(cfg: Config, now: int, g: Progress) {
    match g
    case Missed(_, asked) => asked <= now
    case Fetched(_, _, asked, at, _) => asked <= at <= now
    case Answered(_, _, asked, answered, source) =>
      asked <= answered <= now && (source.FromStore? ==> asked <= source.at <= answered <= source.at + cfg.latency)
    case Failed(_) => true
  }

  lemma NextIsTimely(cfg: Config, s: System, step: Step, c: nat)
    requires c in s.gets ==> Timely(cfg, s.now, s.gets[c])
    requires Enabled(cfg, s, step) && c in Apply(cfg, s, step).gets
    ensures Timely(cfg, Apply(cfg, s, step).now, Apply(cfg, s, step).gets[c])
  {
    match step
    case Tick(_) =>
    case Lookup(_, _) =>
    case Read(_) =>
    case ReadFails(_, _) =>
    case Fill(_, _, _) =>
    case Create(_, _) =>
    case Write(_, _, _) =>
    case Invalidate(_) =>
  }

  lemma {:induction false} GetsAreTimely(cfg: Config, s: System, steps: seq<Step>, k: nat, c: nat)
    requires k <= |steps| && s.gets == map[] && c in Reach(cfg, s, steps, k).gets
    ensures Timely(cfg, Reach(cfg, s, steps, k).now, Reach(cfg, s, steps, k).gets[c])
  {
    if k > 0 {
      var p := Reach(cfg, s, steps, k - 1);
      if c in p.gets {
        GetsAreTimely(cfg, s, steps, k - 1, c);
      }
      if Enabled(cfg, p, steps[k - 1]) {
        NextIsTimely(cfg, p, steps[k - 1], c);
      }
    }
  }

  lemma AnswerOrigin(cfg: Config, s: System, step: Step, c: nat)
    requires c in Next(cfg, s, step).gets && Next(cfg, s, step).gets[c].Answered?
    ensures var g := Next(cfg, s, step).gets[c];
            || (c in s.gets && s.gets[c] == g)
            || (c in s.gets && s.gets[c].Fetched? && s.gets[c].key == g.key && s.gets[c].user == g.user
                && g.source == FromStore(s.gets[c].at))
            || (g.key in s.m && s.m[g.key].user == g.user && g.source == FromEntry(s.m[g.key].exp))
  {
  }

  /** How recent an answer is. One that was read from the store was the store's value at that moment,
      between asking and answering; one from an entry, fresh or stale, was no earlier than ttl + latency
      before the entry's expiry. */
  ghost predicate Recent(cfg: Config, s: System, steps: seq<Step>, k: nat, g: Progress)
    requires k <= |steps| && g.Answered?
  {
    match g.source
    case FromStore(at) =>
      g.asked <= at <= g.answered <= at + cfg.latency && StoredAt(cfg, s, steps, k, g.key, g.user, at)
    case FromEntry(exp) => WasStored(cfg, s, steps, k, g.key, g.user, exp - cfg.ttl - cfg.latency)
  }

  lemma RecentStill(cfg: Config, s: System, steps: seq<Step>, k: nat, g: Progress)
    requires 0 < k <= |steps| && g.Answered? && Recent(cfg, s, steps, k - 1, g)
    ensures Recent(cfg, s, steps, k, g)
  {
    match g.source
    case FromStore(at) => StoredAtStill(cfg, s, steps, k - 1, k, g.key, g.user, at);
    case FromEntry(exp) =>
      WasStoredStill(cfg, s, steps, k - 1, k, g.key, g.user, exp - cfg.ttl - cfg.latency, exp - cfg.ttl - cfg.latency);
  }

  /** Every answer of a Get was the store's value, that recently. */
  lemma {:induction false} AnswerWasStored(cfg: Config, s: System, steps: seq<Step>, k: nat, c: nat)
    requires k <= |steps| && s.gets == map[] && s.m == map[]
    requires c in Reach(cfg, s, steps, k).gets && Reach(cfg, s, steps, k).gets[c].Answered?
    ensures Recent(cfg, s, steps, k, Reach(cfg, s, steps, k).gets[c])
  {
    var p, g := Reach(cfg, s, steps, k - 1), Reach(cfg, s, steps, k).gets[c];
    GetsAreTimely(cfg, s, steps, k, c);
    AnswerOrigin(cfg, p, steps[k - 1], c);
    if c in p.gets && p.gets[c] == g {
      AnswerWasStored(cfg, s, steps, k - 1, c);
    } else if g.source.FromStore? {
      FetchedWasStored(cfg, s, steps, k - 1, c);
    } else {
      EntryWasStored(cfg, s, steps, k - 1, g.key);
    }
    RecentStill(cfg, s, steps, k, g);
  }

  // ---------------------------------------------------------------------------
  // The bound

  /** The cache is within its bound, and no key is empty, stored, cached or on its way. */
  ghost predicate Lean(cfg: Config, s: System) {
    && |s.m| <= cfg.maxEntries && [] !in s.store && [] !in s.m
    && forall c :: c in s.gets && s.gets[c].Fetched? ==> s.gets[c].key != []
  }

  lemma NextIsLean(cfg: Config, s: System, step: Step)
    requires cfg.maxEntries > 0 && Lean(cfg, s) && Enabled(cfg, s, step) && (step.Create? ==> step.key != [])
    ensures Lean(cfg, Apply(cfg, s, step))
  {
    match step
    case Fill(c, evict, m) =>
      SetsKeepsBound(s.m, cfg.maxEntries, cfg.ttl, s.gets[c].key, s.gets[c].user, evict, s.now, m);
    case Invalidate(c) => Without(s.m, s.writes[c]);
    case _ =>
  }

  /** Under every interleaving, and for any order of the eviction's scan, the cache stays within maxEntries as
      long as no stored id is empty. */
  lemma {:induction false} ReachIsBounded(cfg: Config, store: Store, now: int, steps: seq<Step>, k: nat)
    requires cfg.maxEntries > 0 && [] !in store && k <= |steps|
    requires forall i :: 0 <= i < k && steps[i].Create? ==> steps[i].key != []
    ensures Lean(cfg, Reach(cfg, Start(store, now), steps, k))
  {
    if k > 0 {
      ReachIsBounded(cfg, store, now, steps, k - 1);
      var s := Reach(cfg, Start(store, now), steps, k - 1);
      if Enabled(cfg, s, steps[k - 1]) {
        NextIsLean(cfg, s, steps[k - 1]);
      }
    }
  }

  // ---------------------------------------------------------------------------
  // When the cache agrees with the store

  ghost predicate Settled(s: System) {
    && (forall c :: c in s.gets && s.gets[c].Fetched? && !s.gets[c].overtaken ==>
                      s.gets[c].key in s.store && s.store[s.gets[c].key] == s.gets[c].user)
    && (forall key :: key in s.m ==> EntrySettled(s, key))
  }

  /** An entry is the store's value, unless a write of its key has yet to invalidate or an overtaken Get filled it. */
  ghost predicate EntrySettled(s: System, key: Str)
    requires key in s.m
  {
    || (key in s.store && s.store[key] == s.m[key].user)
    || key in s.raced
    || BeingWritten(s, key)
  }

  lemma FillKeepsSettled(cfg: Config, s: System, step: Step)
    requires Settled(s) && step.Fill? && Enabled(cfg, s, step)
    ensures Settled(Apply(cfg, s, step))
  {
    var s', g := Apply(cfg, s, step), s.gets[step.call];
    forall key | key in s'.m ensures EntrySettled(s', key) {
      SetsOnlyKey(s.m, cfg.maxEntries, cfg.ttl, g.key, g.user, step.evict, s.now, step.m, key);
      if key != g.key {
        assert EntrySettled(s, key);
      }
    }
  }

  lemma WriteKeepsSettled(cfg: Config, s: System, step: Step)
    requires Settled(s) && step.Write? && Enabled(cfg, s, step)
    ensures Settled(Apply(cfg, s, step))
  {
    var s' := Apply(cfg, s, step);
    forall key | key in s'.m ensures EntrySettled(s', key) {
      assert EntrySettled(s, key);
      if key == step.key {
        assert step.call in s'.writes && s'.writes[step.call] == key;
      } else if w :| w in s.writes && s.writes[w] == key {
        assert w in s'.writes && s'.writes[w] == key;
      }
    }
  }

  lemma InvalidateKeepsSettled(cfg: Config, s: System, step: Step)
    requires Settled(s) && step.Invalidate? && Enabled(cfg, s, step)
    ensures Settled(Apply(cfg, s, step))
  {
    var s' := Apply(cfg, s, step);
    forall key | key in s'.m ensures EntrySettled(s', key) {
      assert EntrySettled(s, key);
      if w :| w in s.writes && s.writes[w] == key {
        assert w in s'.writes && s'.writes[w] == key;
      }
    }
  }

  lemma OthersKeepSettled(cfg: Config, s: System, step: Step)
    requires Settled(s) && Enabled(cfg, s, step) && !step.Fill? && !step.Write? && !step.Invalidate?
    ensures Settled(Apply(cfg, s, step))
  {
    var s' := Apply(cfg, s, step);
    forall key | key in s'.m ensures EntrySettled(s', key) {
      assert EntrySettled(s, key);
      if w :| w in s.writes && s.writes[w] == key {
        assert w in s'.writes && s'.writes[w] == key;
      }
    }
  }

  lemma {:induction false} ReachIsSettled(cfg: Config, store: Store, now: int, steps: seq<Step>, k: nat)
    requires k <= |steps|
    ensures Settled(Reach(cfg, Start(store, now), steps, k))
  {
    if k > 0 {
      ReachIsSettled(cfg, store, now, steps, k - 1);
      var s, step := Reach(cfg, Start(store, now), steps, k - 1), steps[k - 1];
      if Enabled(cfg, s, step) {
        match step
        case Fill(_, _, _) => FillKeepsSettled(cfg, s, step);
        case Write(_, _, _) => WriteKeepsSettled(cfg, s, step);
        case Invalidate(_) => InvalidateKeepsSettled(cfg, s, step);
        case _ => OthersKeepSettled(cfg, s, step);
      }
    }
  }

  // Which entries disagree, when no value ever comes back.

  /** The key and the value a step writes. */
  function Written(step: Step): Option<(Str, User)> {
    match step
    case Create(key, u) => Some((key, u))
    case Write(_, key, value) => if value.Some? then Some((key, value.value)) else None
    case _ => None
  }

  /** Step `k` does not give a key a value that it had before. */
  ghost predicate WritesNew(cfg: Config, s: System, steps: seq<Step>, k: nat)
    requires k < |steps|
  {
    var w := Written(steps[k]);
    w.Some? && Enabled(cfg, Reach(cfg, s, steps, k), steps[k]) ==>
      forall j :: 0 <= j <= k ==> !Had(cfg, s, steps, j, w.value.0, w.value.1)
  }

  ghost predicate NothingRecurs(cfg: Config, s: System, steps: seq<Step>) {
    forall k :: 0 <= k < |steps| ==> WritesNew(cfg, s, steps, k)
  }

  /** `u` was the value of `key` and is so no more. */
  ghost predicate Superseded(cfg: Config, s: System, steps: seq<Step>, k: nat, key: Str, u: User)
    requires k <= |steps|
  {
    !Had(cfg, s, steps, k, key, u) && exists j :: 0 <= j < k && Had(cfg, s, steps, j, key, u)
  }

  predicate Holds(store: Store, key: Str, u: User) {
    key in store && store[key] == u
  }

  /** A value that a key did not have comes from a write. */
  lemma NewValueIsWritten(cfg: Config, s: System, step: Step, key: Str, u: User)
    ensures Holds(Next(cfg, s, step).store, key, u) && !Holds(s.store, key, u) ==>
              Enabled(cfg, s, step) && Written(step) == Some((key, u))
  {
  }

  lemma SupersededStill(cfg: Config, s: System, steps: seq<Step>, k: nat, key: Str, u: User)
    requires k < |steps| && WritesNew(cfg, s, steps, k) && Superseded(cfg, s, steps, k, key, u)
    ensures Superseded(cfg, s, steps, k + 1, key, u)
  {
    var j :| 0 <= j < k && Had(cfg, s, steps, j, key, u);
    NewValueIsWritten(cfg, Reach(cfg, s, steps, k), steps[k], key, u);
    assert Reach(cfg, s, steps, k + 1) == Next(cfg, Reach(cfg, s, steps, k), steps[k]);
  }

  /** A write supersedes the value that was there. */
  lemma WriteSupersedes(cfg: Config, s: System, steps: seq<Step>, k: nat, key: Str, u: User)
    requires k < |steps| && WritesNew(cfg, s, steps, k) && Had(cfg, s, steps, k, key, u)
    requires steps[k].Write? && steps[k].key == key && Enabled(cfg, Reach(cfg, s, steps, k), steps[k])
    ensures Superseded(cfg, s, steps, k + 1, key, u)
  {
    var value := steps[k].value;
    assert Reach(cfg, s, steps, k + 1) == Apply(cfg, Reach(cfg, s, steps, k), steps[k]);
    if value.Some? {
      assert Written(steps[k]) == Some((key, value.value));
      assert !Had(cfg, s, steps, k, key, value.value);
    }
  }

  /** What overtaken Gets have read, and what they have left in the cache, is out of date. */
  ghost predicate Outdated(cfg: Config, s: System, steps: seq<Step>, k: nat)
    requires k <= |steps|
  {
    var t := Reach(cfg, s, steps, k);
    && (forall c :: c in t.gets && t.gets[c].Fetched? && t.gets[c].overtaken ==>
                      Superseded(cfg, s, steps, k, t.gets[c].key, t.gets[c].user))
    && (forall key :: key in t.m && key in t.raced ==> Superseded(cfg, s, steps, k, key, t.m[key].user))
  }

  lemma OvertakenOrigin(cfg: Config, s: System, step: Step, c: nat)
    requires c in Next(cfg, s, step).gets && Next(cfg, s, step).gets[c].Fetched? && Next(cfg, s, step).gets[c].overtaken
    ensures var g := Next(cfg, s, step).gets[c];
            && c in s.gets && s.gets[c].Fetched? && s.gets[c].key == g.key && s.gets[c].user == g.user
            && (s.gets[c].overtaken ||
                (Enabled(cfg, s, step) && (step.Create? || step.Write?) && step.key == g.key))
  {
  }

  lemma GetsStayOutdated(cfg: Config, s: System, steps: seq<Step>, k: nat, c: nat)
    requires k < |steps| && WritesNew(cfg, s, steps, k)
    requires Settled(Reach(cfg, s, steps, k)) && Outdated(cfg, s, steps, k)
    requires var t := Reach(cfg, s, steps, k + 1); c in t.gets && t.gets[c].Fetched? && t.gets[c].overtaken
    ensures var t := Reach(cfg, s, steps, k + 1); Superseded(cfg, s, steps, k + 1, t.gets[c].key, t.gets[c].user)
  {
    var p, g := Reach(cfg, s, steps, k), Reach(cfg, s, steps, k + 1).gets[c];
    OvertakenOrigin(cfg, p, steps[k], c);
    if p.gets[c].overtaken {
      SupersededStill(cfg, s, steps, k, g.key, g.user);
    } else {
      assert Had(cfg, s, steps, k, g.key, g.user);
      WriteSupersedes(cfg, s, steps, k, g.key, g.user);
    }
  }

  lemma RacedOrigin(cfg: Config, s: System, step: Step, key: Str)
    requires key in Next(cfg, s, step).m && key in Next(cfg, s, step).raced
    ensures var e := Next(cfg, s, step).m[key];
            || (key in s.m && key in s.raced && s.m[key] == e)
            || (exists c :: c in s.gets && s.gets[c].Fetched? && s.gets[c].overtaken
                            && s.gets[c].key == key && s.gets[c].user == e.user)
  {
    if step.Fill? && Enabled(cfg, s, step) {
      var g := s.gets[step.call];
      SetsOnlyKey(s.m, cfg.maxEntries, cfg.ttl, g.key, g.user, step.evict, s.now, step.m, key);
    }
  }

  lemma {:induction false} ReachIsOutdated(cfg: Config, store: Store, now: int, steps: seq<Step>, k: nat)
    requires k <= |steps| && NothingRecurs(cfg, Start(store, now), steps)
    ensures Outdated(cfg, Start(store, now), steps, k)
  {
    var s := Start(store, now);
    if k > 0 {
      var p, t := Reach(cfg, s, steps, k - 1), Reach(cfg, s, steps, k);
      ReachIsOutdated(cfg, store, now, steps, k - 1);
      ReachIsSettled(cfg, store, now, steps, k - 1);
      assert WritesNew(cfg, s, steps, k - 1);
      forall c | c in t.gets && t.gets[c].Fetched? && t.gets[c].overtaken
        ensures Superseded(cfg, s, steps, k, t.gets[c].key, t.gets[c].user)
      {
        GetsStayOutdated(cfg, s, steps, k - 1, c);
      }
      forall key | key in t.m && key in t.raced ensures Superseded(cfg, s, steps, k, key, t.m[key].user) {
        RacedOrigin(cfg, p, steps[k - 1], key);
        SupersededStill(cfg, s, steps, k - 1, key, t.m[key].user);
      }
    }
  }

  predicate BeingWritten(s: System, key: Str) {
    exists w :: w in s.writes && s.writes[w] == key
  }

  /** Whenever no write of its key has yet to invalidate, an entry that was not filled by an overtaken Get
      is exactly the stored user. And where no write brings back an earlier value of its key, the entry
      is the stored user if and only if it was not filled by an overtaken Get. */
  lemma QuietCacheAgrees(cfg: Config, store: Store, now: int, steps: seq<Step>, k: nat, key: Str)
    requires k <= |steps| && key in Reach(cfg, Start(store, now), steps, k).m
    requires !BeingWritten(Reach(cfg, Start(store, now), steps, k), key)
    ensures var t := Reach(cfg, Start(store, now), steps, k);
            var agrees := key in t.store && t.store[key] == t.m[key].user;
            && (key !in t.raced ==> agrees)
            && (NothingRecurs(cfg, Start(store, now), steps) ==> (agrees <==> key !in t.raced))
  {
    var s, t := Start(store, now), Reach(cfg, Start(store, now), steps, k);
    ReachIsSettled(cfg, store, now, steps, k);
    assert EntrySettled(t, key);
    if NothingRecurs(cfg, s, steps) && key in t.raced {
      ReachIsOutdated(cfg, store, now, steps, k);
      assert !Had(cfg, s, steps, k, key, t.m[key].user);
    }
  }

  /** A Get that is overtaken by a write and its invalidation before it fills the cache. */
  ghost function OvertakenRun(cfg: Config, key: Str, u: User, v: User): seq<Step> {
    [Lookup(0, key), Read(0), Write(0, key, Some(v)), Invalidate(0), Fill(0, 0, map[key := Entry(u, cfg.ttl)])]
  }

  lemma OvertakenAtWrite(cfg: Config, key: Str, u: User, v: User)
    ensures Reach(cfg, Start(map[key := u], 0), OvertakenRun(cfg, key, u, v), 3) ==
            System(map[key := v], map[], map[0 := Fetched(key, u, 0, 0, true)], map[0 := key], 0, {})
  {
    var s, steps := Start(map[key := u], 0), OvertakenRun(cfg, key, u, v);
    assert Reach(cfg, s, steps, 1) == s.(gets := map[0 := Missed(key, 0)]);
    assert Reach(cfg, s, steps, 2) == s.(gets := map[0 := Fetched(key, u, 0, 0, false)]);
    assert Overtake(map[0 := Fetched(key, u, 0, 0, false)], key) == map[0 := Fetched(key, u, 0, 0, true)];
  }

  /** The exception is real: such a Get leaves a value the store no longer has, to be served as fresh
      for a whole ttl with nothing left in flight. */
  lemma OvertakenGetLeavesOldValue(cfg: Config, key: Str, u: User, v: User)
    requires cfg.ttl > 0 && cfg.maxEntries > 0 && cfg.latency >= 0 && u != v
    ensures var t := Reach(cfg, Start(map[key := u], 0), OvertakenRun(cfg, key, u, v), 5);
            && t.writes == map[] && t.gets == map[0 := Answered(key, u, 0, 0, FromStore(0))]
            && FreshHit(t.m, key, cfg.ttl) && t.m[key].user == u && t.store == map[key := v]
  {
    var s, steps := Start(map[key := u], 0), OvertakenRun(cfg, key, u, v);
    var filled := map[key := Entry(u, cfg.ttl)];
    OvertakenAtWrite(cfg, key, u, v);
    assert Reach(cfg, s, steps, 4) == System(map[key := v], map[], map[0 := Fetched(key, u, 0, 0, true)], map[], 0, {});
    assert MakesRoom(map[], cfg.maxEntries, key, 0, map[]);
    assert Sets(map[], cfg.maxEntries, cfg.ttl, key, u, 0, 0, filled);
  }
}
