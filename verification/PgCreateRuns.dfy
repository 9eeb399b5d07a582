/**
 What concurrent creates in PostgreSQL guarantee over whole runs: the capacity limit, one
 insert per idempotency key, and replies that agree with it, whatever fails and whenever.
 */
module PgCreateRuns {
  import opened Base
  import opened PgCreate

  function Bound(cfg: Config, s: System): int {
    if |s.rows.users| <= cfg.maxUsers then cfg.maxUsers else |s.rows.users|
  }

  lemma InitHolds(cfg: Config, s: System)
    requires Init(s)
    ensures Invariant(cfg, s, Bound(cfg, s))
  {
  }

  lemma {:induction false} ReachKeeps(cfg: Config, s: System, steps: seq<Step>, k: nat)
    requires Init(s) && k <= |steps|
    ensures Invariant(cfg, Reach(cfg, s, steps, k), Bound(cfg, s))
  {
    if k == 0 {
      InitHolds(cfg, s);
    } else {
      ReachKeeps(cfg, s, steps, k - 1);
      NextKeeps(cfg, Reach(cfg, s, steps, k - 1), Bound(cfg, s), steps[k - 1]);
    }
  }

  /** Over every interleaving of creates, retries, failures, late commits, updates and deletes,
      the committed users never exceed maxUsers (or what was there at the start, if that was more). */
  lemma CapacityHolds(cfg: Config, s: System, steps: seq<Step>, k: nat)
    requires Init(s) && k <= |steps|
    ensures |s.rows.users| <= cfg.maxUsers ==> |Reach(cfg, s, steps, k).rows.users| <= cfg.maxUsers
    ensures |s.rows.users| > cfg.maxUsers ==> |Reach(cfg, s, steps, k).rows.users| <= |s.rows.users|
  {
    ReachKeeps(cfg, s, steps, k);
  }

  /** Two inserts are never committed under one non-empty key, unless the user of the first was deleted. */
  lemma OneInsertPerKey(cfg: Config, s: System, steps: seq<Step>, k: nat, i: nat, j: nat)
    requires Init(s) && k <= |steps|
    requires i < j < |Reach(cfg, s, steps, k).rows.created|
    requires var created := Reach(cfg, s, steps, k).rows.created; created[i].0 == created[j].0 != []
    ensures Reach(cfg, s, steps, k).rows.created[i].1 in Reach(cfg, s, steps, k).rows.deleted
  {
    ReachKeeps(cfg, s, steps, k);
  }

  predicate NoDeletes(steps: seq<Step>) {
    forall i :: 0 <= i < |steps| ==> !steps[i].Delete?
  }

  predicate NoUpdates(steps: seq<Step>) {
    forall i :: 0 <= i < |steps| ==> !steps[i].Update?
  }

  predicate Silent(step: Step) {
    !step.Commit? && !step.LateCommit? && !step.Delete? && !step.Update?
  }

  /** Only a commit, a delete or an update touches the committed rows. */
  lemma SilentKeepsRows(cfg: Config, s: System, step: Step)
    requires Silent(step)
    ensures Next(cfg, s, step).rows == s.rows
  {
    if Enabled(cfg, s, step) {
      match step
      case Arrive(_, _, _) =>
      case Begin(_) =>
      case BeginFails(_, _) =>
      case GiveUp(_, _) =>
      case Break(_, _, _) =>
      case LateRollback(_) =>
      case _ => StatementKeepsRows(cfg, s, step);
    }
  }

  lemma StatementKeepsRows(cfg: Config, s: System, step: Step)
    requires Enabled(cfg, s, step)
    requires step.Lock? || step.Lookup? || step.Scan? || step.Count? || step.InsertUser? || step.InsertKey?
    ensures Apply(cfg, s, step).rows == s.rows
  {
  }

  lemma NextDeletes(cfg: Config, s: System, step: Step)
    ensures !step.Delete? ==> Next(cfg, s, step).rows.deleted == s.rows.deleted
    ensures !step.Update? ==> Next(cfg, s, step).rows.updated == s.rows.updated
  {
    if Silent(step) {
      SilentKeepsRows(cfg, s, step);
    }
  }

  lemma {:induction false} NothingDeleted(cfg: Config, s: System, steps: seq<Step>, k: nat)
    requires Init(s) && k <= |steps|
    ensures NoDeletes(steps) ==> Reach(cfg, s, steps, k).rows.deleted == {}
    ensures NoUpdates(steps) ==> Reach(cfg, s, steps, k).rows.updated == {}
  {
    if k > 0 {
      NothingDeleted(cfg, s, steps, k - 1);
      NextDeletes(cfg, Reach(cfg, s, steps, k - 1), steps[k - 1]);
    }
  }

  predicate Succeeded(s: System, c: nat) {
    c in s.calls && s.calls[c].pc == Returned(None) && s.calls[c].stored.Some?
  }

  lemma NilMeansStored(cfg: Config, s: System, steps: seq<Step>, k: nat, c: nat)
    requires Init(s) && k <= |steps|
    requires c in Reach(cfg, s, steps, k).calls && Reach(cfg, s, steps, k).calls[c].pc == Returned(None)
    ensures Succeeded(Reach(cfg, s, steps, k), c)
  {
    ReachKeeps(cfg, s, steps, k);
    assert CallOk(Reach(cfg, s, steps, k), c);
  }

  /** The number of committed inserts under `key`. */
  function Inserts(created: seq<(Str, Str)>, key: Str): nat {
    if created == [] then 0
    else Inserts(created[..|created| - 1], key) + if created[|created| - 1].0 == key then 1 else 0
  }

  lemma {:induction false} UniqueInsert(created: seq<(Str, Str)>, key: Str, id: Str)
    requires forall i, j :: 0 <= i < j < |created| ==> created[i].0 != key || created[j].0 != key
    requires (key, id) in created
    ensures Inserts(created, key) == 1
    ensures forall i :: 0 <= i < |created| && created[i].0 == key ==> created[i].1 == id
  {
    var n := |created| - 1;
    var i :| 0 <= i < |created| && created[i] == (key, id);
    if i == n {
      NoInsert(created[..n], key);
    } else {
      UniqueInsert(created[..n], key, id);
    }
  }

  lemma {:induction false} NoInsert(created: seq<(Str, Str)>, key: Str)
    requires forall i :: 0 <= i < |created| ==> created[i].0 != key
    ensures Inserts(created, key) == 0
  {
    if created != [] {
      NoInsert(created[..|created| - 1], key);
    }
  }

  /** In runs without deletes, a keyed call that returns nil was served exactly once: there is one
      committed insert for its key, the key row names it, its user row is there, and that user is
      what the call returned (the very row, when nothing was updated). */
  lemma ExactlyOnce(cfg: Config, s: System, steps: seq<Step>, k: nat, c: nat)
    requires Init(s) && k <= |steps| && NoDeletes(steps)
    requires Succeeded(Reach(cfg, s, steps, k), c) && Reach(cfg, s, steps, k).calls[c].key != []
    ensures var r, call := Reach(cfg, s, steps, k).rows, Reach(cfg, s, steps, k).calls[c];
            var u := call.stored.value;
            && Inserts(r.created, call.key) == 1
            && call.key in r.keys && r.keys[call.key] == u.id && u.id in r.users
            && (NoUpdates(steps) ==> r.users[u.id] == u)
            && (!call.replayed ==> u == call.user)
  {
    var t := Reach(cfg, s, steps, k);
    ReachKeeps(cfg, s, steps, k);
    NothingDeleted(cfg, s, steps, k);
    assert CallOk(t, c);
    var call := t.calls[c];
    var i :| 0 <= i < |t.rows.created| && t.rows.created[i] == (call.key, call.stored.value.id);
    assert EntryOk(t.rows, t.rows.created[i]);
    UniqueInsert(t.rows.created, call.key, call.stored.value.id);
  }

  /** Hence all callers that share a key and get a nil error get the same user. */
  lemma CallersAgree(cfg: Config, s: System, steps: seq<Step>, k: nat, c: nat, d: nat)
    requires Init(s) && k <= |steps| && NoDeletes(steps)
    requires Succeeded(Reach(cfg, s, steps, k), c) && Succeeded(Reach(cfg, s, steps, k), d)
    requires Reach(cfg, s, steps, k).calls[c].key == Reach(cfg, s, steps, k).calls[d].key != []
    ensures Reach(cfg, s, steps, k).calls[c].stored.value.id == Reach(cfg, s, steps, k).calls[d].stored.value.id
    ensures NoUpdates(steps) ==>
              Reach(cfg, s, steps, k).calls[c].stored.value == Reach(cfg, s, steps, k).calls[d].stored.value
  {
    ExactlyOnce(cfg, s, steps, k, c);
    ExactlyOnce(cfg, s, steps, k, d);
  }
}
