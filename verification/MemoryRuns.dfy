/**
 Whole runs of the in-memory repository: one live user per idempotency key, replays that
 change nothing, and the capacity bound.
 */
module MemoryRuns {
  import opened Base
  import opened Memory

  /** The repository and, for every stored id, the idempotency key it was created under
      (the empty string for an unkeyed create). */
  datatype Tracked = Tracked(mem: State, madeBy: map<Str, Str>)

  const START := Tracked(EMPTY, map[])

  function Next(t: Tracked, op: Op): Tracked {
    Tracked(Effect(t.mem, op), Origins(t, op))
  }

  function Origins(t: Tracked, op: Op): map<Str, Str> {
    match op
    case Create(ctx, user, maxUsers) =>
      if DoCreate(t.mem, ctx, user, maxUsers).1 == Done && user.Some? then t.madeBy[user.value.id := []] else t.madeBy
    case CreateKeyed(ctx, user, maxUsers, key) =>
      var r := DoCreateKeyed(t.mem, ctx, user, maxUsers, key).1;
      if r.Stored? && !r.replayed && user.Some? then t.madeBy[user.value.id := key] else t.madeBy
    case Delete(ctx, id) =>
      if DoDelete(t.mem, ctx, id).1 == Done then t.madeBy - {id} else t.madeBy
    case _ => t.madeBy
  }

  /** The state after the first `k` operations. */
  function Reach(ops: seq<Op>, k: nat): Tracked
    requires k <= |ops|
  {
    if k == 0 then START else Next(Reach(ops, k - 1), ops[k - 1])
  }

  ghost predicate Valid(t: Tracked) {
    && t.madeBy.Keys == t.mem.users.Keys
    && [] !in t.mem.users
    && forall id :: id in t.madeBy && t.madeBy[id] != [] ==>
                      t.madeBy[id] in t.mem.idem && t.mem.idem[t.madeBy[id]] == id
  }

  lemma AddKeepsValid(t: Tracked, u: User, key: Str)
    requires Valid(t) && u.id != [] && u.id !in t.mem.users
    requires key != [] && key in t.mem.idem ==> t.mem.idem[key] !in t.mem.users
    ensures Valid(Tracked(State(t.mem.users[u.id := u],
                                if key == [] then t.mem.idem else t.mem.idem[key := u.id], t.mem.closed),
                          t.madeBy[u.id := key]))
  {
  }

  lemma RewriteKeepsValid(t: Tracked, id: Str, u: User)
    requires Valid(t) && id in t.mem.users
    ensures Valid(t.(mem := t.mem.(users := t.mem.users[id := u])))
  {
    assert t.mem.users[id := u].Keys == t.mem.users.Keys;
  }

  lemma CreateKeepsValid(t: Tracked, op: Op)
    requires Valid(t) && op.Create?
    ensures Valid(Next(t, op))
  {
    if DoCreate(t.mem, op.ctx, op.user, op.maxUsers).1 == Done {
      AddKeepsValid(t, op.user.value, []);
    }
  }

  lemma CreateKeyedKeepsValid(t: Tracked, op: Op)
    requires Valid(t) && op.CreateKeyed?
    ensures Valid(Next(t, op))
  {
    var r := DoCreateKeyed(t.mem, op.ctx, op.user, op.maxUsers, op.key).1;
    if r.Stored? && !r.replayed {
      AddKeepsValid(t, op.user.value, op.key);
    }
  }

  lemma RewritesKeepValid(t: Tracked, op: Op)
    requires Valid(t) && (op.Update? || op.Modify?)
    ensures Valid(Next(t, op))
  {
    if Effect(t.mem, op) != t.mem {
      match op
      case Update(_, user) => RewriteKeepsValid(t, user.value.id, user.value);
      case Modify(_, id, mutate) => RewriteKeepsValid(t, id, mutate.value(t.mem.users[id]).value);
    }
  }

  lemma NextKeepsValid(t: Tracked, op: Op)
    requires Valid(t)
    ensures Valid(Next(t, op))
  {
    match op
    case Create(_, _, _) => CreateKeepsValid(t, op);
    case CreateKeyed(_, _, _, _) => CreateKeyedKeepsValid(t, op);
    case Update(_, _) => RewritesKeepValid(t, op);
    case Modify(_, _, _) => RewritesKeepValid(t, op);
    case Delete(_, _) =>
    case _ =>
      assert Next(t, op).mem.users == t.mem.users && Next(t, op).mem.idem == t.mem.idem;
  }

  lemma {:induction false} ReachIsValid(ops: seq<Op>, k: nat)
    requires k <= |ops|
    ensures Valid(Reach(ops, k))
  {
    if k > 0 {
      ReachIsValid(ops, k - 1);
      NextKeepsValid(Reach(ops, k - 1), ops[k - 1]);
    }
  }

  /** In every run, at most one live user was created under any given key; and no stored id is empty. */
  lemma OneUserPerKey(ops: seq<Op>, k: nat, a: Str, b: Str)
    requires k <= |ops|
    requires a in Reach(ops, k).mem.users && b in Reach(ops, k).mem.users
    ensures a in Reach(ops, k).madeBy && b in Reach(ops, k).madeBy && a != []
    ensures Reach(ops, k).madeBy[a] == Reach(ops, k).madeBy[b] != [] ==> a == b
  {
    ReachIsValid(ops, k);
  }

  // ---------------------------------------------------------------------------
  // Replays

  /** `op` is not a delete of `id`. */
  predicate Spares(op: Op, id: Str) {
    op.Delete? ==> op.id != id
  }

  /** `op` neither deletes nor rewrites `id`. */
  predicate LeavesAlone(op: Op, id: Str) {
    && Spares(op, id)
    && (op.Modify? ==> op.id != id)
    && (op.Update? && op.user.Some? ==> op.user.value.id != id)
  }

  predicate Bound(s: State, key: Str, id: Str) {
    key in s.idem && s.idem[key] == id && id in s.users
  }

  lemma EffectKeepsBinding(s: State, op: Op, key: Str, id: Str)
    requires Bound(s, key, id) && key != [] && Spares(op, id)
    ensures Bound(Effect(s, op), key, id)
    ensures LeavesAlone(op, id) ==> Effect(s, op).users[id] == s.users[id]
  {
  }

  lemma {:induction false} BindingPersists(ops: seq<Op>, i: nat, j: nat, key: Str, id: Str)
    requires i <= j <= |ops| && key != [] && Bound(Reach(ops, i).mem, key, id)
    requires forall k :: i <= k < j ==> Spares(ops[k], id)
    ensures Bound(Reach(ops, j).mem, key, id)
    ensures (forall k :: i <= k < j ==> LeavesAlone(ops[k], id)) ==>
              Reach(ops, j).mem.users[id] == Reach(ops, i).mem.users[id]
    decreases j
  {
    if i < j {
      BindingPersists(ops, i, j - 1, key, id);
      assert Spares(ops[j - 1], id);
      EffectKeepsBinding(Reach(ops, j - 1).mem, ops[j - 1], key, id);
      assert Reach(ops, j).mem == Effect(Reach(ops, j - 1).mem, ops[j - 1]);
    }
  }

  /** What a keyed create returns. */
  function KeyedReply(s: State, op: Op): Reply
    requires op.CreateKeyed?
  {
    DoCreateKeyed(s, op.ctx, op.user, op.maxUsers, op.key).1
  }

  lemma FreshCreateBinds(s: State, op: Op)
    requires op.CreateKeyed? && op.key != [] && KeyedReply(s, op).Stored? && !KeyedReply(s, op).replayed
    ensures var u := KeyedReply(s, op).user;
            Bound(Effect(s, op), op.key, u.id) && Effect(s, op).users[u.id] == u
  {
  }

  lemma ReplayChangesNothing(t: Tracked, op: Op, id: Str)
    requires op.CreateKeyed? && op.key != [] && op.ctx == Live && !Invalidated(op.user)
    requires Bound(t.mem, op.key, id) && !t.mem.closed
    ensures KeyedReply(t.mem, op) == Stored(t.mem.users[id], true) && Next(t, op) == t
  {
  }

  /** Operation `i` of the run created `u` under `key`. */
  predicate CreatedAt(ops: seq<Op>, i: nat, key: Str, u: User)
    requires i < |ops|
  {
    ops[i].CreateKeyed? && ops[i].key == key && KeyedReply(Reach(ops, i).mem, ops[i]) == Stored(u, false)
  }

  lemma StillBound(ops: seq<Op>, i: nat, j: nat, key: Str, u: User)
    requires i < j < |ops| && key != [] && CreatedAt(ops, i, key, u)
    requires forall k :: i < k < j ==> Spares(ops[k], u.id)
    ensures Bound(Reach(ops, j).mem, key, u.id)
    ensures (forall k :: i < k < j ==> LeavesAlone(ops[k], u.id)) ==> Reach(ops, j).mem.users[u.id] == u
  {
    FreshCreateBinds(Reach(ops, i).mem, ops[i]);
    assert Reach(ops, i + 1).mem == Effect(Reach(ops, i).mem, ops[i]);
    BindingPersists(ops, i + 1, j, key, u.id);
  }

  /** A keyed create that succeeds fresh at `i`, repeated at `j` with the same key and any other
      user and limit, returns the user created at `i` in its present form and changes nothing,
      full or not, unless that user was deleted or the repository closed in between. */
  lemma ReplayReturnsTheUser(ops: seq<Op>, i: nat, j: nat, key: Str, u: User)
    requires i < j < |ops| && key != [] && CreatedAt(ops, i, key, u)
    requires ops[j].CreateKeyed? && ops[j].key == key && ops[j].ctx == Live && !Invalidated(ops[j].user)
    requires !Reach(ops, j).mem.closed
    requires forall k :: i < k < j ==> Spares(ops[k], u.id)
    ensures u.id in Reach(ops, j).mem.users
    ensures KeyedReply(Reach(ops, j).mem, ops[j]) == Stored(Reach(ops, j).mem.users[u.id], true)
    ensures Reach(ops, j + 1) == Reach(ops, j)
    ensures (forall k :: i < k < j ==> LeavesAlone(ops[k], u.id)) ==> KeyedReply(Reach(ops, j).mem, ops[j]).user == u
  {
    StillBound(ops, i, j, key, u);
    ReplayChangesNothing(Reach(ops, j), ops[j], u.id);
    assert Reach(ops, j + 1) == Next(Reach(ops, j), ops[j]);
  }

  // ---------------------------------------------------------------------------
  // Capacity

  predicate Limited(op: Op, maxUsers: int) {
    op.Create? || op.CreateKeyed? ==> op.maxUsers == maxUsers
  }

  lemma EffectKeepsCapacity(s: State, op: Op, maxUsers: nat)
    requires |s.users| <= maxUsers && Limited(op, maxUsers)
    ensures |Effect(s, op).users| <= maxUsers
  {
    var s' := Effect(s, op);
    if op.Delete? && s'.users != s.users {
      assert s'.users.Keys == s.users.Keys - {op.id};
    }
    if op.Modify? && s'.users != s.users {
      assert s'.users.Keys == s.users.Keys;
    }
    if op.Update? && s'.users != s.users {
      assert s'.users.Keys == s.users.Keys;
    }
  }

  /** With one fixed limit, the number of users never exceeds it. */
  lemma {:induction false} CapacityHolds(ops: seq<Op>, k: nat, maxUsers: nat)
    requires k <= |ops| && forall i :: 0 <= i < |ops| ==> Limited(ops[i], maxUsers)
    ensures |Reach(ops, k).mem.users| <= maxUsers
  {
    if k > 0 {
      CapacityHolds(ops, k - 1, maxUsers);
      EffectKeepsCapacity(Reach(ops, k - 1).mem, ops[k - 1], maxUsers);
    }
  }
}
