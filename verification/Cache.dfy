/**
 The read-through cache's entries and their eviction. Go visits a map in an arbitrary order,
 so the entry that goes is the outcome of a scan over any enumeration of the keys.
 */
module Cache {
  import opened Base

  datatype Entry = Entry(user: User, exp: int)

  type Entries = map<Str, Entry>

  predicate IsExpired(e: Entry, now: int) {
    now > e.exp
  }

  function Unexpired(m: Entries, now: int): Entries {
    map k | k in m && !IsExpired(m[k], now) :: m[k]
  }

  /** `order` lists every key once. */
  ghost predicate Enumerates(order: seq<Str>, keys: set<Str>) {
    && (forall i, j :: 0 <= i < j < |order| ==> order[i] != order[j])
    && (forall k :: k in order <==> k in keys)
  }

  /** The scan for the entry closest to expiring, as coded: the empty string stands for "none yet". */
  function Oldest(order: seq<Str>, m: Entries): (r: Str)
    requires forall k :: k in order ==> k in m
    ensures r == [] || r in order
  {
    if order == [] then []
    else
      var k := order[|order| - 1];
      var p := Oldest(order[..|order| - 1], m);
      if p == [] || m[k].exp < m[p].exp then k else p
  }

  function WithoutOldest(order: seq<Str>, m: Entries): Entries
    requires forall k :: k in order ==> k in m
  {
    var k := Oldest(order, m);
    if k == [] then m else m - {k}
  }

  /** `evictLocked`: `m'` is what it may leave of `m`. */
  ghost predicate Evicts(m: Entries, maxEntries: int, now: int, m': Entries) {
    if |m| < maxEntries then m' == m
    else
      var live := Unexpired(m, now);
      if |live| < maxEntries then m' == live
      else exists order :: Enumerates(order, live.Keys) && m' == WithoutOldest(order, live)
  }

  /** `set`: room is made only for a new key, by a clock reading of its own. */
  ghost predicate Sets(m: Entries, maxEntries: int, ttl: int, key: Str, user: User, evict: int, now: int, m': Entries) {
    exists mid :: MakesRoom(m, maxEntries, key, evict, mid) && m' == mid[key := Entry(user, now + ttl)]
  }

  ghost predicate MakesRoom(m: Entries, maxEntries: int, key: Str, now: int, mid: Entries) {
    if key in m then mid == m else Evicts(m, maxEntries, now, mid)
  }

  // ---------------------------------------------------------------------------
  // What the scan finds

  ghost predicate IsMinimal(k: Str, order: seq<Str>, m: Entries)
    requires forall x :: x in order ==> x in m
  {
    k in order && forall x :: x in order ==> m[k].exp <= m[x].exp
  }

  /** Without the empty key the scan finds an entry of minimal expiry, in any order. */
  lemma {:induction false} OldestIsMinimal(order: seq<Str>, m: Entries)
    requires order != [] && [] !in order && forall k :: k in order ==> k in m
    ensures IsMinimal(Oldest(order, m), order, m)
  {
    var n := |order| - 1;
    var before := order[..n];
    assert order == before + [order[n]];
    if n > 0 {
      OldestIsMinimal(before, m);
      LaterIsMinimal(before, order[n], Oldest(before, m), m);
    }
  }

  lemma LaterIsMinimal(before: seq<Str>, k: Str, p: Str, m: Entries)
    requires (forall x :: x in before ==> x in m) && k in m && IsMinimal(p, before, m)
    ensures forall x :: x in before + [k] ==> x in m
    ensures IsMinimal(if m[k].exp < m[p].exp then k else p, before + [k], m)
  {
  }

  lemma {:induction false} OrderExists(keys: set<Str>) returns (order: seq<Str>)
    ensures Enumerates(order, keys)
    decreases |keys|
  {
    if keys == {} {
      order := [];
    } else {
      var k :| k in keys;
      order := OrderExists(keys - {k});
      order := order + [k];
    }
  }

  /** The empty key, if it could be cached, would break the bound: some order of the scan finds
      nothing to evict if and only if the empty key expires strictly before every other entry. */
  lemma ScanFindsNothingIff(m: Entries)
    requires m != map[]
    ensures (exists order :: Enumerates(order, m.Keys) && Oldest(order, m) == [])
            <==> [] in m && forall k :: k in m && k != [] ==> m[[]].exp < m[k].exp
  {
    if [] in m && forall k :: k in m && k != [] ==> m[[]].exp < m[k].exp {
      var others := OrderExists(m.Keys - {[]});
      var order := others + [[]];
      assert order[..|others|] == others;
      assert Enumerates(order, m.Keys) && Oldest(order, m) == [];
    }
    forall order | Enumerates(order, m.Keys) && Oldest(order, m) == []
      ensures [] in m && forall k :: k in m && k != [] ==> m[[]].exp < m[k].exp
    {
      ScanFoundNothing(order, m);
    }
  }

  lemma ScanFoundNothing(order: seq<Str>, m: Entries)
    requires Enumerates(order, m.Keys) && m != map[] && Oldest(order, m) == []
    ensures [] in m && forall k :: k in m && k != [] ==> m[[]].exp < m[k].exp
  {
    var k :| k in m;
    assert k in order;
    var n := |order| - 1;
    var others := order[..n];
    assert order == others + [order[n]];
    assert order[n] == [];
    assert [] !in others;
    forall k | k in m && k != [] ensures m[[]].exp < m[k].exp {
      assert k in others;
      OldestIsMinimal(others, m);
    }
  }

  // ---------------------------------------------------------------------------
  // The bound, and how little is evicted

  lemma EvictsLeavesRoom(m: Entries, maxEntries: int, now: int, m': Entries)
    requires maxEntries > 0 && |m| <= maxEntries && [] !in m && Evicts(m, maxEntries, now, m')
    ensures |m'| < maxEntries && m'.Keys <= m.Keys
    ensures forall k :: k in m' ==> m'[k] == m[k]
  {
    if |m| >= maxEntries {
      var live := Unexpired(m, now);
      Shrinks(live.Keys, m.Keys);
      if |live| >= maxEntries {
        var order :| Enumerates(order, live.Keys) && m' == WithoutOldest(order, live);
        WithoutOldestShrinks(order, live);
      }
    }
  }

  lemma WithoutOldestShrinks(order: seq<Str>, m: Entries)
    requires Enumerates(order, m.Keys) && m != map[] && [] !in m
    ensures |WithoutOldest(order, m)| == |m| - 1 && WithoutOldest(order, m).Keys <= m.Keys
    ensures forall k :: k in WithoutOldest(order, m) ==> WithoutOldest(order, m)[k] == m[k]
  {
    var k :| k in m;
    assert k in order;
    OldestIsMinimal(order, m);
    assert WithoutOldest(order, m).Keys == m.Keys - {Oldest(order, m)};
  }

  /** Making room only ever removes entries. */
  lemma EvictsSubmap(m: Entries, maxEntries: int, now: int, m': Entries, k: Str)
    requires Evicts(m, maxEntries, now, m') && k in m'
    ensures k in m && m'[k] == m[k]
  {
  }

  lemma SetsOnlyKey(m: Entries, maxEntries: int, ttl: int, key: Str, user: User, evict: int, now: int, m': Entries,
                    k: Str)
    requires Sets(m, maxEntries, ttl, key, user, evict, now, m') && k in m'
    ensures if k == key then m'[k] == Entry(user, now + ttl) else k in m && m'[k] == m[k]
  {
    var mid :| MakesRoom(m, maxEntries, key, evict, mid) && m' == mid[key := Entry(user, now + ttl)];
    if k != key && key !in m {
      EvictsSubmap(m, maxEntries, evict, mid, k);
    }
  }

  /** The cache never outgrows maxEntries, whatever order the scan takes. */
  lemma SetsKeepsBound(m: Entries, maxEntries: int, ttl: int, key: Str, user: User, evict: int, now: int, m': Entries)
    requires maxEntries > 0 && |m| <= maxEntries && [] !in m && Sets(m, maxEntries, ttl, key, user, evict, now, m')
    ensures |m'| <= maxEntries
    ensures key in m' && m'[key] == Entry(user, now + ttl)
    ensures forall k :: k in m' && k != key ==> k in m && m'[k] == m[k]
  {
    forall k | k in m' && k != key ensures k in m && m'[k] == m[k] {
      SetsOnlyKey(m, maxEntries, ttl, key, user, evict, now, m', k);
    }
    SetsSize(m, maxEntries, ttl, key, user, evict, now, m');
  }

  lemma SetsSize(m: Entries, maxEntries: int, ttl: int, key: Str, user: User, evict: int, now: int, m': Entries)
    requires maxEntries > 0 && |m| <= maxEntries && [] !in m && Sets(m, maxEntries, ttl, key, user, evict, now, m')
    ensures |m'| <= maxEntries && key in m' && m'[key] == Entry(user, now + ttl)
  {
    var mid :| MakesRoom(m, maxEntries, key, evict, mid) && m' == mid[key := Entry(user, now + ttl)];
    if key in m {
      assert m'.Keys == m.Keys;
    } else {
      EvictsLeavesRoom(m, maxEntries, evict, mid);
      assert m'.Keys == mid.Keys + {key};
    }
  }

  /** Making room removes expired entries, and at most one that is not: that one has minimal expiry
      among the unexpired and goes only when dropping the expired ones made no room. */
  lemma EvictsLittle(m: Entries, maxEntries: int, now: int, m': Entries, k: Str)
    requires [] !in m && Evicts(m, maxEntries, now, m')
    requires k in m && k !in m' && !IsExpired(m[k], now)
    ensures |Unexpired(m, now)| >= maxEntries
    ensures m' == Unexpired(m, now) - {k}
    ensures forall x :: x in m && !IsExpired(m[x], now) ==> m[k].exp <= m[x].exp
  {
    var live := Unexpired(m, now);
    assert k in live;
    var order :| Enumerates(order, live.Keys) && m' == WithoutOldest(order, live);
    assert k in order;
    OldestIsMinimal(order, live);
    forall x | x in m && !IsExpired(m[x], now) ensures m[k].exp <= m[x].exp {
      assert x in live && x in order;
    }
  }

  /** While there is room, or the key is there already, nothing is dropped, expired or not; when there is none,
      all that has expired goes. */
  lemma SetsDropsOnlyWhenFull(m: Entries, maxEntries: int, ttl: int, key: Str, user: User, evict: int, now: int,
                              m': Entries)
    requires Sets(m, maxEntries, ttl, key, user, evict, now, m')
    ensures key in m || |m| < maxEntries ==> m' == m[key := Entry(user, now + ttl)]
    ensures key !in m && |m| >= maxEntries ==>
              forall k :: k in m' && k != key ==> k in m && !IsExpired(m[k], evict)
  {
    var mid :| MakesRoom(m, maxEntries, key, evict, mid) && m' == mid[key := Entry(user, now + ttl)];
  }

  /** With the empty key cached in a cache of one entry, inserting another outgrows the bound. */
  lemma EmptyKeyOutgrowsBound(u: User, exp: int, now: int, ttl: int)
    requires now <= exp
    ensures var m := map[[] := Entry(u, exp)];
            Sets(m, 1, ttl, [1], u, now, now, m[[1] := Entry(u, now + ttl)]) && |m[[1] := Entry(u, now + ttl)]| == 2
  {
    var m := map[[] := Entry(u, exp)];
    assert Unexpired(m, now) == m;
    assert |m.Keys| == 1;
    var order: seq<Str> := [[]];
    assert order[..0] == [];
    assert Oldest(order, m) == [];
    assert Enumerates(order, m.Keys) && m == WithoutOldest(order, m);
    assert MakesRoom(m, 1, [1], now, m);
    assert m[[1] := Entry(u, now + ttl)].Keys == {[], [1]};
  }
}
