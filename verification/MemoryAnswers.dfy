/**
 What the in-memory repository answers, in terms of nothing but the operations before and the
 answers they got: an id is stored if its last successful write was not a delete, a key stands
 for the id of its last fresh create, and the repository is closed once Close was called.
 */
module MemoryAnswers {
  import opened Base
  import opened Memory

  /** Operation `i` takes state `ss[i]` to `ss[i + 1]` and is answered `rs[i]`. */
  ghost predicate StepAt(ops: seq<Op>, rs: seq<Reply>, ss: seq<State>, i: nat)
    requires i < |ops| == |rs| && |ss| == |ops| + 1
  {
    ss[i + 1] == Effect(ss[i], ops[i]) && rs[i] == ReplyTo(ss[i], ops[i])
  }

  /** A run from an empty repository: the operations, their answers, and the states between them. */
  ghost predicate Run(ops: seq<Op>, rs: seq<Reply>, ss: seq<State>) {
    && |rs| == |ops| && |ss| == |ops| + 1 && ss[0] == EMPTY
    && forall i :: 0 <= i < |ops| ==> StepAt(ops, rs, ss, i)
  }

  // ---------------------------------------------------------------------------
  // What can be told from the answers

  datatype Write = Write(id: Str, value: Option<User>)

  /** What an operation with this answer has written. */
  function Written(op: Op, r: Reply): Option<Write> {
    match op
    case Create(_, user, _) => if r == Done && user.Some? then Some(Write(user.value.id, user)) else None
    case CreateKeyed(_, user, _, _) =>
      if r.Stored? && !r.replayed then Some(Write(r.user.id, Some(r.user))) else None
    case Update(_, user) => if r == Done && user.Some? then Some(Write(user.value.id, user)) else None
    case Modify(_, id, _) => if r.Got? then Some(Write(id, Some(r.user))) else None
    case Delete(_, id) => if r == Done then Some(Write(id, None)) else None
    case _ => None
  }

  /** The last value written under `id` in the first `k` operations; None if there is none or it was deleted. */
  function Latest(ops: seq<Op>, rs: seq<Reply>, k: nat, id: Str): Option<User>
    requires k <= |ops| == |rs|
  {
    if k == 0 then None
    else
      var w := Written(ops[k - 1], rs[k - 1]);
      if w.Some? && w.value.id == id then w.value.value else Latest(ops, rs, k - 1, id)
  }

  /** The id that was last created afresh under `key`. */
  function Holder(ops: seq<Op>, rs: seq<Reply>, k: nat, key: Str): Option<Str>
    requires k <= |ops| == |rs|
  {
    if k == 0 then None
    else
      var op, r := ops[k - 1], rs[k - 1];
      if op.CreateKeyed? && op.key == key && key != [] && r.Stored? && !r.replayed then Some(r.user.id)
      else Holder(ops, rs, k - 1, key)
  }

  predicate WasClosed(ops: seq<Op>, k: nat)
    requires k <= |ops|
  {
    exists j :: 0 <= j < k && ops[j].Close?
  }

  // ---------------------------------------------------------------------------
  // It is what is stored

  function Find<K, V>(m: map<K, V>, k: K): Option<V> {
    if k in m then Some(m[k]) else None
  }

  /** The value under `id` after the operation is what it is seen to have written, or the value before. */
  ghost predicate WritesAsSeen(s: State, op: Op, id: Str) {
    var w := Written(op, ReplyTo(s, op));
    Find(Effect(s, op).users, id) == if w.Some? && w.value.id == id then w.value.value else Find(s.users, id)
  }

  lemma CreatesAreSeen(s: State, op: Op, id: Str)
    requires op.Create? || op.CreateKeyed?
    ensures WritesAsSeen(s, op, id)
  {
    match op
    case Create(_, _, _) =>
    case CreateKeyed(_, _, _, _) =>
  }

  lemma RewritesAreSeen(s: State, op: Op, id: Str)
    requires op.Update? || op.Modify? || op.Delete?
    ensures WritesAsSeen(s, op, id)
  {
    match op
    case Update(_, _) =>
    case Modify(_, _, _) =>
    case Delete(_, _) =>
  }

  lemma EffectIsWritten(s: State, op: Op, id: Str)
    ensures WritesAsSeen(s, op, id)
  {
    if op.Create? || op.CreateKeyed? {
      CreatesAreSeen(s, op, id);
    } else if op.Update? || op.Modify? || op.Delete? {
      RewritesAreSeen(s, op, id);
    }
  }

  lemma EffectOnKeys(s: State, op: Op, key: Str)
    requires key != []
    ensures var r := ReplyTo(s, op);
            Find(Effect(s, op).idem, key) ==
            if op.CreateKeyed? && op.key == key && r.Stored? && !r.replayed then Some(r.user.id) else Find(s.idem, key)
  {
    match op
    case CreateKeyed(_, _, _, _) =>
    case _ =>
  }

  lemma LatestUnfolds(ops: seq<Op>, rs: seq<Reply>, k: nat, id: Str)
    requires k < |ops| == |rs|
    ensures var w := Written(ops[k], rs[k]);
            Latest(ops, rs, k + 1, id) == if w.Some? && w.value.id == id then w.value.value else Latest(ops, rs, k, id)
  {
  }

  lemma LatestStep(ops: seq<Op>, rs: seq<Reply>, ss: seq<State>, k: nat, id: Str)
    requires Run(ops, rs, ss) && k < |ops| && Find(ss[k].users, id) == Latest(ops, rs, k, id)
    ensures Find(ss[k + 1].users, id) == Latest(ops, rs, k + 1, id)
  {
    LatestUnfolds(ops, rs, k, id);
    assert StepAt(ops, rs, ss, k);
    EffectIsWritten(ss[k], ops[k], id);
  }

  lemma {:induction false} LatestIsStored(ops: seq<Op>, rs: seq<Reply>, ss: seq<State>, k: nat, id: Str)
    requires Run(ops, rs, ss) && k <= |ops|
    ensures Find(ss[k].users, id) == Latest(ops, rs, k, id)
  {
    if k > 0 {
      LatestIsStored(ops, rs, ss, k - 1, id);
      LatestStep(ops, rs, ss, k - 1, id);
    }
  }

  lemma HolderUnfolds(ops: seq<Op>, rs: seq<Reply>, k: nat, key: Str)
    requires k < |ops| == |rs| && key != []
    ensures var op, r := ops[k], rs[k];
            Holder(ops, rs, k + 1, key) ==
            if op.CreateKeyed? && op.key == key && r.Stored? && !r.replayed then Some(r.user.id)
            else Holder(ops, rs, k, key)
  {
  }

  lemma HolderStep(ops: seq<Op>, rs: seq<Reply>, ss: seq<State>, k: nat, key: Str)
    requires Run(ops, rs, ss) && k < |ops| && key != [] && Find(ss[k].idem, key) == Holder(ops, rs, k, key)
    ensures Find(ss[k + 1].idem, key) == Holder(ops, rs, k + 1, key)
  {
    HolderUnfolds(ops, rs, k, key);
    assert StepAt(ops, rs, ss, k);
    EffectOnKeys(ss[k], ops[k], key);
  }

  lemma {:induction false} HolderIsRecorded(ops: seq<Op>, rs: seq<Reply>, ss: seq<State>, k: nat, key: Str)
    requires Run(ops, rs, ss) && k <= |ops| && key != []
    ensures Find(ss[k].idem, key) == Holder(ops, rs, k, key)
  {
    if k > 0 {
      HolderIsRecorded(ops, rs, ss, k - 1, key);
      HolderStep(ops, rs, ss, k - 1, key);
    }
  }

  lemma ClosedStep(ops: seq<Op>, rs: seq<Reply>, ss: seq<State>, k: nat)
    requires Run(ops, rs, ss) && k < |ops|
    ensures ss[k + 1].closed <==> ss[k].closed || ops[k].Close?
  {
    assert StepAt(ops, rs, ss, k);
    CloseCloses(ss[k], ops[k]);
  }

  lemma WasClosedUnfolds(ops: seq<Op>, k: nat)
    requires k < |ops|
    ensures WasClosed(ops, k + 1) <==> WasClosed(ops, k) || ops[k].Close?
  {
  }

  lemma {:induction false} ClosedByClose(ops: seq<Op>, rs: seq<Reply>, ss: seq<State>, k: nat)
    requires Run(ops, rs, ss) && k <= |ops|
    ensures ss[k].closed <==> WasClosed(ops, k)
  {
    if k > 0 {
      ClosedByClose(ops, rs, ss, k - 1);
      ClosedStep(ops, rs, ss, k - 1);
      WasClosedUnfolds(ops, k - 1);
    }
  }

  lemma CloseCloses(s: State, op: Op)
    ensures Effect(s, op).closed <==> s.closed || op.Close?
  {
  }

  // ---------------------------------------------------------------------------
  // The answers

  /** The context's error comes first, and Unavailable after Close. */
  ghost predicate Serves(ops: seq<Op>, k: nat, ctx: Context)
    requires k <= |ops|
  {
    ctx == Live && !WasClosed(ops, k)
  }

  /** Errors of the context: one for each kind, and none for a live one. */
  predicate ContextAnswers(ctx: Context, r: Reply, mayBeInvalid: bool) {
    && (ctx == Cancelled ==> r == Failed(Canceled))
    && (ctx == Expired ==> r == Failed(DeadlineExceeded))
    && (ctx == NilContext ==> r == Failed(Invalid))
    && (ctx == Live && r == Failed(Invalid) ==> mayBeInvalid)
  }

  /** Get returns the last value written; ErrNotFound if there is none or it was deleted. */
  lemma GetAnswers(ops: seq<Op>, rs: seq<Reply>, ss: seq<State>, k: nat, u: User)
    requires Run(ops, rs, ss) && k < |ops| && ops[k].Get?
    ensures var ctx, r, stored := ops[k].ctx, rs[k], Latest(ops, rs, k, ops[k].id);
            && ContextAnswers(ctx, r, false)
            && (r == Got(u) <==> Serves(ops, k, ctx) && stored == Some(u))
            && (r == Failed(NotFound) <==> Serves(ops, k, ctx) && stored == None)
            && (r == Failed(Unavailable) <==> ctx == Live && WasClosed(ops, k))
  {
    LatestIsStored(ops, rs, ss, k, ops[k].id);
    ClosedByClose(ops, rs, ss, k);
    assert StepAt(ops, rs, ss, k);
  }

  /** Update succeeds if and only if a value of that id is stored. */
  lemma UpdateAnswers(ops: seq<Op>, rs: seq<Reply>, ss: seq<State>, k: nat)
    requires Run(ops, rs, ss) && k < |ops| && ops[k].Update?
    ensures var ctx, user, r := ops[k].ctx, ops[k].user, rs[k];
            var valid := user.Some? && user.value.id != [];
            && ContextAnswers(ctx, r, !valid)
            && (ctx == Live && !valid ==> r == Failed(Invalid))
            && (r == Done <==> Serves(ops, k, ctx) && valid && Latest(ops, rs, k, user.value.id).Some?)
            && (r == Failed(NotFound) <==> Serves(ops, k, ctx) && valid && Latest(ops, rs, k, user.value.id) == None)
            && (r == Failed(Unavailable) <==> ctx == Live && valid && WasClosed(ops, k))
  {
    if ops[k].user.Some? {
      LatestIsStored(ops, rs, ss, k, ops[k].user.value.id);
    }
    ClosedByClose(ops, rs, ss, k);
    assert StepAt(ops, rs, ss, k);
  }

  /** Delete succeeds if and only if a value of that id is stored. */
  lemma DeleteAnswers(ops: seq<Op>, rs: seq<Reply>, ss: seq<State>, k: nat)
    requires Run(ops, rs, ss) && k < |ops| && ops[k].Delete?
    ensures var ctx, r, stored := ops[k].ctx, rs[k], Latest(ops, rs, k, ops[k].id);
            && ContextAnswers(ctx, r, false)
            && (r == Done <==> Serves(ops, k, ctx) && stored.Some?)
            && (r == Failed(NotFound) <==> Serves(ops, k, ctx) && stored == None)
            && (r == Failed(Unavailable) <==> ctx == Live && WasClosed(ops, k))
    ensures rs[k] != Done ==> ss[k + 1] == ss[k]
  {
    LatestIsStored(ops, rs, ss, k, ops[k].id);
    ClosedByClose(ops, rs, ss, k);
    assert StepAt(ops, rs, ss, k);
  }

  /** ReadModifyUpdate returns what the callback makes of the last value, and the callback's error otherwise. */
  lemma ModifyAnswers(ops: seq<Op>, rs: seq<Reply>, ss: seq<State>, k: nat, u: User, e: Error)
    requires Run(ops, rs, ss) && k < |ops| && ops[k].Modify?
    ensures var ctx, r, stored, mutate := ops[k].ctx, rs[k], Latest(ops, rs, k, ops[k].id), ops[k].mutate;
            var valid := !Blank(ops[k].id) && mutate.Some?;
            && (ctx == Cancelled ==> r == Failed(Canceled)) && (ctx == Expired ==> r == Failed(DeadlineExceeded))
            && (ctx == NilContext || (ctx == Live && !valid) ==> r == Failed(Invalid))
            && (ctx == Live && valid && WasClosed(ops, k) ==> r == Failed(Unavailable))
            && (Serves(ops, k, ctx) && valid && stored == None ==> r == Failed(NotFound))
            && (Serves(ops, k, ctx) && valid && stored.Some? && mutate.value(stored.value) == Err(e) ==> r == Failed(e))
            && (r == Got(u) <==>
                Serves(ops, k, ctx) && valid && stored.Some? && mutate.value(stored.value) == Ok(u))
  {
    LatestIsStored(ops, rs, ss, k, ops[k].id);
    ClosedByClose(ops, rs, ss, k);
    assert StepAt(ops, rs, ss, k);
  }

  /** Create succeeds if and only if there is room and no value of that id is stored. */
  lemma CreateAnswers(ops: seq<Op>, rs: seq<Reply>, ss: seq<State>, k: nat)
    requires Run(ops, rs, ss) && k < |ops| && ops[k].Create?
    ensures var ctx, user, r := ops[k].ctx, ops[k].user, rs[k];
            var valid, room := user.Some? && user.value.id != [], |ss[k].users| < ops[k].maxUsers;
            && ContextAnswers(ctx, r, !valid)
            && (ctx == Live && !valid ==> r == Failed(Invalid))
            && (r == Done <==> Serves(ops, k, ctx) && valid && room && Latest(ops, rs, k, user.value.id) == None)
            && (r == Failed(Capacity) <==> Serves(ops, k, ctx) && valid && !room)
            && (r == Failed(AlreadyExists) <==>
                Serves(ops, k, ctx) && valid && room && Latest(ops, rs, k, user.value.id).Some?)
            && (r == Failed(Unavailable) <==> ctx == Live && valid && WasClosed(ops, k))
  {
    if ops[k].user.Some? {
      LatestIsStored(ops, rs, ss, k, ops[k].user.value.id);
    }
    ClosedByClose(ops, rs, ss, k);
    assert StepAt(ops, rs, ss, k);
  }

  /** The stored user a key stands for. */
  function Named(ops: seq<Op>, rs: seq<Reply>, k: nat, key: Str): Option<User>
    requires k <= |ops| == |rs|
  {
    if key != [] && Holder(ops, rs, k, key).Some? then Latest(ops, rs, k, Holder(ops, rs, k, key).value) else None
  }

  lemma NamedIsStored(ops: seq<Op>, rs: seq<Reply>, ss: seq<State>, k: nat, key: Str)
    requires Run(ops, rs, ss) && k <= |ops| && key != []
    ensures var s := ss[k];
            Named(ops, rs, k, key) ==
            if key in s.idem && s.idem[key] in s.users then Some(s.users[s.idem[key]]) else None
  {
    HolderIsRecorded(ops, rs, ss, k, key);
    if Holder(ops, rs, k, key).Some? {
      LatestIsStored(ops, rs, ss, k, Holder(ops, rs, k, key).value);
    }
  }

  /** A keyed create replays if and only if its key stands for a stored user, even at capacity; otherwise it
      answers as a create does. */
  lemma CreateKeyedAnswers(ops: seq<Op>, rs: seq<Reply>, ss: seq<State>, k: nat, u: User)
    requires Run(ops, rs, ss) && k < |ops| && ops[k].CreateKeyed?
    ensures var ctx, user, r, named := ops[k].ctx, ops[k].user, rs[k], Named(ops, rs, k, ops[k].key);
            var valid, room := user.Some? && user.value.id != [], |ss[k].users| < ops[k].maxUsers;
            && ContextAnswers(ctx, r, !valid)
            && (r == Stored(u, true) <==> Serves(ops, k, ctx) && valid && named == Some(u))
            && (r == Stored(u, false) <==>
                && Serves(ops, k, ctx) && valid && named == None && room
                && user == Some(u) && Latest(ops, rs, k, u.id) == None)
            && (r == Failed(Capacity) <==> Serves(ops, k, ctx) && valid && named == None && !room)
            && (r == Failed(AlreadyExists) <==>
                Serves(ops, k, ctx) && valid && named == None && room && Latest(ops, rs, k, user.value.id).Some?)
            && (r == Failed(Unavailable) <==> ctx == Live && valid && WasClosed(ops, k))
  {
    if ops[k].user.Some? {
      LatestIsStored(ops, rs, ss, k, ops[k].user.value.id);
    }
    if ops[k].key != [] {
      NamedIsStored(ops, rs, ss, k, ops[k].key);
    }
    ClosedByClose(ops, rs, ss, k);
    assert StepAt(ops, rs, ss, k);
  }

  /** Ping and List look at the context; List also at the limit, and at Close. */
  lemma OtherAnswers(ops: seq<Op>, rs: seq<Reply>, ss: seq<State>, k: nat)
    requires Run(ops, rs, ss) && k < |ops| && (ops[k].Ping? || ops[k].List?)
    ensures var ctx, r := ops[k].ctx, rs[k];
            && ContextAnswers(ctx, r, ops[k].List? && ops[k].limit <= 0)
            && (ops[k].Ping? ==> (r == Done <==> ctx == Live))
            && (ops[k].List? ==> (r.Page? <==> Serves(ops, k, ctx) && ops[k].limit > 0))
            && (ops[k].List? ==> (r == Failed(Unavailable) <==> ctx == Live && ops[k].limit > 0 && WasClosed(ops, k)))
  {
    ClosedByClose(ops, rs, ss, k);
    assert StepAt(ops, rs, ss, k);
  }

  // ---------------------------------------------------------------------------
  // Between two deletes

  /** Operation `m` creates `id`. */
  predicate CreatesAt(ops: seq<Op>, rs: seq<Reply>, m: nat, id: Str)
    requires m < |ops| == |rs|
  {
    var w := Written(ops[m], rs[m]);
    (ops[m].Create? || ops[m].CreateKeyed?) && w.Some? && w.value.id == id
  }

  lemma WriteToNothingCreates(ops: seq<Op>, rs: seq<Reply>, ss: seq<State>, k: nat, id: Str)
    requires Run(ops, rs, ss) && k < |ops| && Latest(ops, rs, k, id) == None && Latest(ops, rs, k + 1, id).Some?
    ensures CreatesAt(ops, rs, k, id)
  {
    if ops[k].Update? {
      UpdateAnswers(ops, rs, ss, k);
    } else if ops[k].Modify? && ops[k].id == id && rs[k].Got? {
      ModifyAnswers(ops, rs, ss, k, rs[k].user, Invalid);
    }
  }

  /** What is false at first and true at last becomes true somewhere. */
  lemma {:induction false} BecomesTrue(p: nat -> bool, i: nat, j: nat) returns (m: nat)
    requires i <= j && !p(i) && p(j)
    ensures i <= m < j && !p(m) && p(m + 1)
    decreases j
  {
    if p(j - 1) {
      m := BecomesTrue(p, i, j - 1);
    } else {
      m := j - 1;
    }
  }

  lemma CreatedSince(ops: seq<Op>, rs: seq<Reply>, ss: seq<State>, i: nat, j: nat, id: Str) returns (m: nat)
    requires Run(ops, rs, ss) && i <= j <= |ops| && Latest(ops, rs, i, id) == None && Latest(ops, rs, j, id).Some?
    ensures i <= m < j && CreatesAt(ops, rs, m, id)
  {
    m := BecomesTrue((n: nat) => n <= |ops| && Latest(ops, rs, n, id).Some?, i, j);
    WriteToNothingCreates(ops, rs, ss, m, id);
  }

  lemma DeleteClears(ops: seq<Op>, rs: seq<Reply>, ss: seq<State>, i: nat)
    requires Run(ops, rs, ss) && i < |ops| && ops[i].Delete? && rs[i] == Done
    ensures Latest(ops, rs, i + 1, ops[i].id) == None
  {
    LatestUnfolds(ops, rs, i, ops[i].id);
  }

  lemma DeleteNeedsAValue(ops: seq<Op>, rs: seq<Reply>, ss: seq<State>, j: nat)
    requires Run(ops, rs, ss) && j < |ops| && ops[j].Delete? && rs[j] == Done
    ensures Latest(ops, rs, j, ops[j].id).Some?
  {
    DeleteAnswers(ops, rs, ss, j);
  }

  /** Two deletes of one id that both succeed have a successful create of it between them. */
  lemma DeletesAlternateWithCreates(ops: seq<Op>, rs: seq<Reply>, ss: seq<State>, i: nat, j: nat, id: Str)
    returns (m: nat)
    requires Run(ops, rs, ss) && i < j < |ops| && ops[i].Delete? && ops[j].Delete? && ops[i].id == ops[j].id == id
    requires rs[i] == Done && rs[j] == Done
    ensures i < m < j && CreatesAt(ops, rs, m, id)
  {
    DeleteClears(ops, rs, ss, i);
    DeleteNeedsAValue(ops, rs, ss, j);
    m := CreatedSince(ops, rs, ss, i + 1, j, id);
  }
}
