/**
 The in-memory repository. `Effect` and `ReplyTo` say what every operation does to the
 state kept under its lock and what it returns; the class carries the operations out and is proved against it.
 */
module Memory {
  import opened Base
  import opened Paging

  datatype State = State(users: Store, idem: map<Str, Str>, closed: bool)

  const EMPTY := State(map[], map[], false)

  /** A read-modify-update callback: the changed user, or the error that aborts. */
  type Mutation = User -> Result<User>

  datatype Op =
    | Create(ctx: Context, user: Option<User>, maxUsers: int)
    | CreateKeyed(ctx: Context, user: Option<User>, maxUsers: int, key: Str)
    | Get(ctx: Context, id: Str)
    | Update(ctx: Context, user: Option<User>)
    | Modify(ctx: Context, id: Str, mutate: Option<Mutation>)
    | Delete(ctx: Context, id: Str)
    | List(ctx: Context, limit: int, after: Str)
    | Ping(ctx: Context)
    | Close

  datatype Reply =
    | Failed(error: Error)
    | Done
    | Got(user: User)
    | Stored(user: User, replayed: bool)
    | Page(users: seq<User>, next: Str)
  {
    function Err(): Option<Error> {
      if Failed? then Some(error) else None
    }
  }

  predicate Invalidated(user: Option<User>) {
    user == None || user.value.id == []
  }

  function DoCreate(s: State, ctx: Context, user: Option<User>, maxUsers: int): (State, Reply) {
    if ctx.Error().Some? then (s, Failed(ctx.Error().value))
    else if Invalidated(user) then (s, Failed(Invalid))
    else if s.closed then (s, Failed(Unavailable))
    else if |s.users| >= maxUsers then (s, Failed(Capacity))
    else if user.value.id in s.users then (s, Failed(AlreadyExists))
    else (s.(users := s.users[user.value.id := user.value]), Done)
  }

  function DoCreateKeyed(s: State, ctx: Context, user: Option<User>, maxUsers: int, key: Str): (State, Reply) {
    if ctx.Error().Some? then (s, Failed(ctx.Error().value))
    else if key == [] then
      var (s', r) := DoCreate(s, ctx, user, maxUsers);
      (s', if r.Failed? || user == None then r else Stored(user.value, false))
    else if Invalidated(user) then (s, Failed(Invalid))
    else if s.closed then (s, Failed(Unavailable))
    else if key in s.idem && s.idem[key] in s.users then (s, Stored(s.users[s.idem[key]], true))
    else if |s.users| >= maxUsers then (s, Failed(Capacity))
    else if user.value.id in s.users then (s, Failed(AlreadyExists))
    else
      (s.(users := s.users[user.value.id := user.value], idem := s.idem[key := user.value.id]),
       Stored(user.value, false))
  }

  function DoGet(s: State, ctx: Context, id: Str): Reply {
    if ctx.Error().Some? then Failed(ctx.Error().value)
    else if s.closed then Failed(Unavailable)
    else if id !in s.users then Failed(NotFound)
    else Got(s.users[id])
  }

  function DoUpdate(s: State, ctx: Context, user: Option<User>): (State, Reply) {
    if ctx.Error().Some? then (s, Failed(ctx.Error().value))
    else if Invalidated(user) then (s, Failed(Invalid))
    else if s.closed then (s, Failed(Unavailable))
    else if user.value.id !in s.users then (s, Failed(NotFound))
    else (s.(users := s.users[user.value.id := user.value]), Done)
  }

  function DoModify(s: State, ctx: Context, id: Str, mutate: Option<Mutation>): (State, Reply) {
    if ctx.Error().Some? then (s, Failed(ctx.Error().value))
    else if Blank(id) then (s, Failed(Invalid))
    else if mutate.None? then (s, Failed(Invalid))
    else if s.closed then (s, Failed(Unavailable))
    else if id !in s.users then (s, Failed(NotFound))
    else
      match mutate.value(s.users[id])
      case Err(e) => (s, Failed(e))
      case Ok(u) => (s.(users := s.users[id := u]), Got(u))
  }

  function DoDelete(s: State, ctx: Context, id: Str): (State, Reply) {
    if ctx.Error().Some? then (s, Failed(ctx.Error().value))
    else if s.closed then (s, Failed(Unavailable))
    else if id !in s.users then (s, Failed(NotFound))
    else (s.(users := s.users - {id}), Done)
  }

  ghost function DoList(s: State, ctx: Context, limit: int, after: Str): Reply {
    if ctx.Error().Some? then Failed(ctx.Error().value)
    else if limit <= 0 then Failed(Invalid)
    else if s.closed then Failed(Unavailable)
    else Page(UsersOf(s.users, PageIds(s.users, limit, after)), NextCursor(s.users, limit, after))
  }

  /** The stored users of the listed ids; ids that are not stored are skipped. */
  function UsersOf(store: Store, ids: seq<Str>): seq<User> {
    if ids == [] then []
    else (if ids[0] in store then [store[ids[0]]] else []) + UsersOf(store, ids[1..])
  }

  /** The state after an operation. */
  function Effect(s: State, op: Op): State {
    match op
    case Create(ctx, user, maxUsers) => DoCreate(s, ctx, user, maxUsers).0
    case CreateKeyed(ctx, user, maxUsers, key) => DoCreateKeyed(s, ctx, user, maxUsers, key).0
    case Update(ctx, user) => DoUpdate(s, ctx, user).0
    case Modify(ctx, id, mutate) => DoModify(s, ctx, id, mutate).0
    case Delete(ctx, id) => DoDelete(s, ctx, id).0
    case Close => s.(closed := true)
    case Get(_, _) => s
    case List(_, _, _) => s
    case Ping(_) => s
  }

  /** What the operation returns. */
  ghost function ReplyTo(s: State, op: Op): Reply {
    match op
    case Create(ctx, user, maxUsers) => DoCreate(s, ctx, user, maxUsers).1
    case CreateKeyed(ctx, user, maxUsers, key) => DoCreateKeyed(s, ctx, user, maxUsers, key).1
    case Get(ctx, id) => DoGet(s, ctx, id)
    case Update(ctx, user) => DoUpdate(s, ctx, user).1
    case Modify(ctx, id, mutate) => DoModify(s, ctx, id, mutate).1
    case Delete(ctx, id) => DoDelete(s, ctx, id).1
    case List(ctx, limit, after) => DoList(s, ctx, limit, after)
    case Ping(ctx) => if ctx.Error().Some? then Failed(ctx.Error().value) else Done
    case Close => Done
  }

  // ---------------------------------------------------------------------------
  // Sorting and collecting ids, for List

  /** `sort.Strings`. */
  method SortStrings(ids: seq<Str>) returns (r: seq<Str>)
    requires forall i, j :: 0 <= i < j < |ids| ==> ids[i] != ids[j]
    ensures Ascending(r) && Elements(r) == Elements(ids) && |r| == |ids|
  {
    r := [];
    var n := 0;
    while n < |ids|
      invariant n <= |ids| && |r| == n
      invariant Ascending(r) && Elements(r) == Elements(ids[..n])
    {
      assert ids[n] !in Elements(ids[..n]);
      var p := FindPosition(r, ids[n]);
      InsertAscends(r, p, ids[n]);
      r := r[..p] + [ids[n]] + r[p..];
      assert ids[..n + 1] == ids[..n] + [ids[n]];
      assert Elements(ids[..n + 1]) == Elements(ids[..n]) + {ids[n]};
      n := n + 1;
    }
    assert ids[..n] == ids;
  }

  method FindPosition(r: seq<Str>, x: Str) returns (p: nat)
    requires x !in r
    ensures p <= |r|
    ensures p > 0 ==> Less(r[p - 1], x)
    ensures p < |r| ==> Less(x, r[p])
  {
    p := 0;
    while p < |r| && Less(r[p], x)
      invariant p <= |r|
      invariant p > 0 ==> Less(r[p - 1], x)
    {
      p := p + 1;
    }
    if p < |r| {
      LessTotal(r[p], x);
    }
  }

  lemma InsertAscends(r: seq<Str>, p: nat, x: Str)
    requires Ascending(r) && p <= |r|
    requires p > 0 ==> Less(r[p - 1], x)
    requires p < |r| ==> Less(x, r[p])
    ensures Ascending(r[..p] + [x] + r[p..])
    ensures Elements(r[..p] + [x] + r[p..]) == Elements(r) + {x}
  {
    forall i | 0 <= i < p ensures Less(r[i], x) {
      if i < p - 1 {
        LessTransitive(r[i], r[p - 1], x);
      }
    }
    forall i | p <= i < |r| ensures Less(x, r[i]) {
      if p < i {
        LessTransitive(x, r[p], r[i]);
      }
    }
    var q := r[..p] + [x] + r[p..];
    forall i, j | 0 <= i < j < |q| ensures Less(q[i], q[j]) {
      if i < p {
        assert q[i] == r[i];
        if j > p {
          assert q[j] == r[j - 1];
          assert Less(r[i], r[j - 1]);
        }
      } else if i > p {
        assert Less(r[i - 1], r[j - 1]);
      }
    }
    assert r == r[..p] + r[p..];
  }

  lemma {:induction false} UsersOfIsPointwise(store: Store, ids: seq<Str>)
    requires forall i :: 0 <= i < |ids| ==> ids[i] in store
    ensures |UsersOf(store, ids)| == |ids|
    ensures forall i :: 0 <= i < |ids| ==> UsersOf(store, ids)[i] == store[ids[i]]
  {
    if ids != [] {
      assert forall i :: 0 <= i < |ids[1..]| ==> ids[1..][i] == ids[i + 1];
      UsersOfIsPointwise(store, ids[1..]);
    }
  }

  lemma {:induction false} UsersOfConcat(store: Store, a: seq<Str>, b: seq<Str>)
    ensures UsersOf(store, a + b) == UsersOf(store, a) + UsersOf(store, b)
  {
    if a == [] {
      assert a + b == b;
    } else {
      assert (a + b)[1..] == a[1..] + b;
      UsersOfConcat(store, a[1..], b);
    }
  }

  // ---------------------------------------------------------------------------
  // The repository itself

  class MemoryRepository {
    var users: Store
    var idem: map<Str, Str>
    var closed: bool

    ghost function View(): State
      reads this
    {
      State(users, idem, closed)
    }

    constructor ()
      ensures View() == EMPTY
    {
      users, idem, closed := map[], map[], false;
    }

    method CreateWithIdempotency(ctx: Context, user: Option<User>, maxUsers: int, key: Str) returns (r: Reply)
      modifies this
      ensures View() == Effect(old(View()), Op.CreateKeyed(ctx, user, maxUsers, key))
      ensures r == ReplyTo(old(View()), Op.CreateKeyed(ctx, user, maxUsers, key))
    {
      if ctx.Error().Some? {
        return Failed(ctx.Error().value);
      }
      if key == [] {
        r := Create(ctx, user, maxUsers);
        if r.Failed? {
          return r;
        }
        return Stored(user.value, false);
      }
      if user == None || user.value.id == [] {
        return Failed(Invalid);
      }
      if closed {
        return Failed(Unavailable);
      }
      if key in idem {
        var existing := idem[key];
        if existing in users {
          return Stored(users[existing], true);
        }
      }
      if |users| >= maxUsers {
        return Failed(Capacity);
      }
      if user.value.id in users {
        return Failed(AlreadyExists);
      }
      users := users[user.value.id := user.value];
      idem := idem[key := user.value.id];
      return Stored(user.value, false);
    }

    method Create(ctx: Context, user: Option<User>, maxUsers: int) returns (r: Reply)
      modifies this
      ensures View() == Effect(old(View()), Op.Create(ctx, user, maxUsers))
      ensures r == ReplyTo(old(View()), Op.Create(ctx, user, maxUsers))
      ensures r == Done ==> user.Some?
    {
      if ctx.Error().Some? {
        return Failed(ctx.Error().value);
      }
      if user == None || user.value.id == [] {
        return Failed(Invalid);
      }
      if closed {
        return Failed(Unavailable);
      }
      if |users| >= maxUsers {
        return Failed(Capacity);
      }
      if user.value.id in users {
        return Failed(AlreadyExists);
      }
      users := users[user.value.id := user.value];
      return Done;
    }

    method Get(ctx: Context, id: Str) returns (r: Reply)
      ensures r == ReplyTo(View(), Op.Get(ctx, id))
    {
      if ctx.Error().Some? {
        return Failed(ctx.Error().value);
      }
      if closed {
        return Failed(Unavailable);
      }
      if id !in users {
        return Failed(NotFound);
      }
      return Got(users[id]);
    }

    method Update(ctx: Context, user: Option<User>) returns (r: Reply)
      modifies this
      ensures View() == Effect(old(View()), Op.Update(ctx, user)) && r == ReplyTo(old(View()), Op.Update(ctx, user))
    {
      if ctx.Error().Some? {
        return Failed(ctx.Error().value);
      }
      if user == None || user.value.id == [] {
        return Failed(Invalid);
      }
      if closed {
        return Failed(Unavailable);
      }
      if user.value.id !in users {
        return Failed(NotFound);
      }
      users := users[user.value.id := user.value];
      return Done;
    }

    method ReadModifyUpdate(ctx: Context, id: Str, mutate: Option<Mutation>) returns (r: Reply)
      modifies this
      ensures View() == Effect(old(View()), Op.Modify(ctx, id, mutate))
      ensures r == ReplyTo(old(View()), Op.Modify(ctx, id, mutate))
    {
      if ctx.Error().Some? {
        return Failed(ctx.Error().value);
      }
      if Blank(id) || mutate.None? {
        return Failed(Invalid);
      }
      if closed {
        return Failed(Unavailable);
      }
      if id !in users {
        return Failed(NotFound);
      }
      var working := mutate.value(users[id]);
      if working.Err? {
        return Failed(working.error);
      }
      users := users[id := working.value];
      return Got(working.value);
    }

    method Delete(ctx: Context, id: Str) returns (r: Reply)
      modifies this
      ensures View() == Effect(old(View()), Op.Delete(ctx, id)) && r == ReplyTo(old(View()), Op.Delete(ctx, id))
    {
      if ctx.Error().Some? {
        return Failed(ctx.Error().value);
      }
      if closed {
        return Failed(Unavailable);
      }
      if id !in users {
        return Failed(NotFound);
      }
      users := users - {id};
      return Done;
    }

    /** Collects the ids after the cursor in map order, sorts them and cuts off a page. */
    method List(ctx: Context, limit: int, after: Str) returns (r: Reply)
      ensures r == ReplyTo(View(), Op.List(ctx, limit, after))
    {
      if ctx.Error().Some? {
        return Failed(ctx.Error().value);
      }
      if limit <= 0 {
        return Failed(Invalid);
      }
      if closed {
        return Failed(Unavailable);
      }
      var ids := CollectAfter(after);
      ids := SortStrings(ids);
      AscendingUnique(ids, IdsAfter(users, after));
      var end := if limit > |ids| then |ids| else limit;
      var page := ids[..end];
      assert page == PageIds(users, limit, after);
      var found := Fetch(page);
      var next := if |ids| > limit then page[|page| - 1] else [];
      return Page(found, next);
    }

    /** Copies the users of a page. */
    method Fetch(page: seq<Str>) returns (found: seq<User>)
      ensures found == UsersOf(users, page)
    {
      found := [];
      var i := 0;
      while i < |page|
        invariant i <= |page|
        invariant found == UsersOf(users, page[..i])
      {
        UsersOfConcat(users, page[..i], [page[i]]);
        assert page[..i + 1] == page[..i] + [page[i]];
        if page[i] in users {
          found := found + [users[page[i]]];
        }
        i := i + 1;
      }
      assert page[..i] == page;
    }

    method CollectAfter(after: Str) returns (ids: seq<Str>)
      ensures Elements(ids) == Elements(IdsAfter(users, after))
      ensures forall i, j :: 0 <= i < j < |ids| ==> ids[i] != ids[j]
    {
      ids := [];
      var rest := users.Keys;
      while rest != {}
        invariant rest <= users.Keys
        invariant forall x :: x in ids <==> x in users && x !in rest && Less(after, x)
        invariant forall i, j :: 0 <= i < j < |ids| ==> ids[i] != ids[j]
        decreases |rest|
      {
        var id :| id in rest;
        rest := rest - {id};
        if Less(after, id) {
          ids := ids + [id];
        }
      }
      forall x
        ensures x in ids <==> x in IdsAfter(users, after)
      {
        InIdsAfter(users, after, x);
      }
    }

    method Ping(ctx: Context) returns (r: Reply)
      ensures r == ReplyTo(View(), Op.Ping(ctx))
    {
      if ctx.Error().Some? {
        return Failed(ctx.Error().value);
      }
      return Done;
    }

    method Close() returns (r: Reply)
      modifies this
      ensures View() == Effect(old(View()), Op.Close) && r == ReplyTo(old(View()), Op.Close)
    {
      closed := true;
      return Done;
    }

    /** The Repository interface: one entry per operation. */
    method Call(op: Op) returns (r: Reply)
      modifies this
      ensures View() == Effect(old(View()), op) && r == ReplyTo(old(View()), op)
    {
      match op
      case Create(ctx, user, maxUsers) => r := Create(ctx, user, maxUsers);
      case CreateKeyed(ctx, user, maxUsers, key) => r := CreateWithIdempotency(ctx, user, maxUsers, key);
      case Get(ctx, id) => r := Get(ctx, id);
      case Update(ctx, user) => r := Update(ctx, user);
      case Modify(ctx, id, mutate) => r := ReadModifyUpdate(ctx, id, mutate);
      case Delete(ctx, id) => r := Delete(ctx, id);
      case List(ctx, limit, after) => r := List(ctx, limit, after);
      case Ping(ctx) => r := Ping(ctx);
      case Close => r := Close();
    }
  }
}
