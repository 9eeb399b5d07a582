/**
 The retries of a create in PostgreSQL, seen over whole runs: the errors of a call's attempts
 are exactly those of a run of retryOperation, whatever goes on beside it.
 */
module PgRetries {
  import opened Base
  import opened PgCreate
  import opened PgRefinement
  import PgCreateRuns
  import RetryLoops

  // ---------------------------------------------------------------------------
  // Which errors are retried

  /** Connection failures, serialization failures and deadlocks, lock timeouts, want of resources and server
      trouble are retried, wrapped or not; refused data, statements and constraints are not, and neither are
      the repository's own errors or the context's. */
  lemma WhatIsRetried(e: Error, code: string)
    ensures Retryable(Wrapped(e)) <==> Retryable(e)
    ensures Retryable(EndOfFile) && Retryable(UnexpectedEndOfFile)
    ensures Retryable(Postgres(code)) <==>
            || code in {"08000", "08001", "08003", "08004", "08006"}
            || code in {"40001", "40P01", "55P03", "53300", "53400"}
            || code in {"57P01", "57P02", "57P03", "58000", "58030", "XX000"}
    ensures Retryable(Postgres(code)) ==>
              && |code| == 5 && code != "57014"
              && (code[0], code[1]) in
                 {('0', '8'), ('4', '0'), ('5', '3'), ('5', '5'), ('5', '7'), ('5', '8'), ('X', 'X')}
    ensures !Retryable(Canceled) && !Retryable(DeadlineExceeded)
    ensures !Retryable(NotFound) && !Retryable(Capacity) && !Retryable(AlreadyExists) && !Retryable(Invalid)
  {
  }

  // ---------------------------------------------------------------------------
  // The errors of a call's attempts

  /** The error with which a step ends the attempt of call `c` that is under way, if it does. */
  function AttemptError(cfg: Config, s: System, step: Step, c: nat): Option<Error> {
    if !Enabled(cfg, s, step) || Caller(step) != Some(c) then None
    else
      match step
      case BeginFails(_, e) => Some(e)
      case Break(_, e, _) => Some(e)
      case Scan(_) => if PhaseOf(s, c).id in s.rows.users then None else Some(NotFound)
      case Count(_) => if |s.rows.users| < cfg.maxUsers then None else Some(Capacity)
      case InsertUser(_) => if s.calls[c].user.id in s.rows.users then Some(AlreadyExists) else None
      case InsertKey(_) => if s.calls[c].key in s.rows.keys then Some(Wrapped(Postgres("23505"))) else None
      case _ => None
  }

  /** The errors of the attempts of call `c` in the first `k` steps, in order. */
  function Errors(cfg: Config, s: System, steps: seq<Step>, k: nat, c: nat): seq<Error>
    requires k <= |steps|
  {
    if k == 0 then []
    else With(Errors(cfg, s, steps, k - 1, c), AttemptError(cfg, Reach(cfg, s, steps, k - 1), steps[k - 1], c))
  }

  function With(errors: seq<Error>, e: Option<Error>): seq<Error> {
    if e.Some? then errors + [e.value] else errors
  }

  predicate AllRetryable(errors: seq<Error>) {
    forall i :: 0 <= i < |errors| ==> Retryable(errors[i])
  }

  /** All errors so far were retryable, and there are attempts left. */
  predicate GoesOn(cfg: Config, call: Call, errors: seq<Error>) {
    AllRetryable(errors) && |errors| == call.attempt && (call.attempt > 0 ==> call.attempt < cfg.maxAttempts)
  }

  /** The call has returned its last attempt's error, which is not retryable or ended the last attempt. */
  predicate GaveOut(cfg: Config, errors: seq<Error>, e: Error) {
    && errors != [] && errors[|errors| - 1] == e && AllRetryable(errors[..|errors| - 1])
    && (|errors| > 1 ==> |errors| <= cfg.maxAttempts)
    && (Retryable(e) ==> |errors| >= cfg.maxAttempts)
  }

  predicate Lawful(cfg: Config, call: Call, errors: seq<Error>) {
    match call.pc
    case Waiting => GoesOn(cfg, call, errors)
    case Running(_) => GoesOn(cfg, call, errors)
    case Returned(None) => GoesOn(cfg, call, errors)
    case Returned(Some(e)) =>
      || GaveOut(cfg, errors, e)
      || (GoesOn(cfg, call, errors) && errors != [] && (e == Canceled || e == DeadlineExceeded))
      || (errors == [] && e == Invalid)
  }

  predicate LawfulIn(cfg: Config, s: System, c: nat, errors: seq<Error>) {
    if c in s.calls then Lawful(cfg, s.calls[c], errors) else errors == []
  }

  lemma FailedAttempt(cfg: Config, call: Call, errors: seq<Error>, e: Error)
    requires GoesOn(cfg, call, errors) && !call.pc.Returned?
    ensures Lawful(cfg, AfterError(cfg, call, e), errors + [e])
  {
    assert (errors + [e])[..|errors|] == errors;
  }

  lemma StatementIsLawful(cfg: Config, s: System, step: Step, c: nat, errors: seq<Error>)
    requires Enabled(cfg, s, step) && Caller(step) == Some(c) && c in s.calls && GoesOn(cfg, s.calls[c], errors)
    requires step.Lock? || step.Lookup? || step.Scan? || step.Count? || step.InsertUser? || step.InsertKey?
    ensures c in Apply(cfg, s, step).calls
    ensures Lawful(cfg, Apply(cfg, s, step).calls[c], With(errors, AttemptError(cfg, s, step, c)))
  {
    var e := AttemptError(cfg, s, step, c);
    if e.Some? {
      FailedAttempt(cfg, s.calls[c], errors, e.value);
    }
  }

  lemma OwnStepIsLawful(cfg: Config, s: System, step: Step, c: nat, errors: seq<Error>)
    requires Enabled(cfg, s, step) && Caller(step) == Some(c) && !step.Arrive?
    requires c in s.calls && Lawful(cfg, s.calls[c], errors)
    ensures c in Apply(cfg, s, step).calls
    ensures Lawful(cfg, Apply(cfg, s, step).calls[c], With(errors, AttemptError(cfg, s, step, c)))
  {
    match step
    case Begin(_) =>
    case BeginFails(_, e) => FailedAttempt(cfg, s.calls[c], errors, e);
    case Break(_, e, _) => FailedAttempt(cfg, s.calls[c], errors, e);
    case GiveUp(_, _) =>
    case Commit(_) =>
    case _ => StatementIsLawful(cfg, s, step, c, errors);
  }

  lemma NextIsLawful(cfg: Config, s: System, bound: int, step: Step, c: nat, errors: seq<Error>)
    requires Invariant(cfg, s, bound) && LawfulIn(cfg, s, c, errors)
    ensures LawfulIn(cfg, Next(cfg, s, step), c, With(errors, AttemptError(cfg, s, step, c)))
  {
    if Enabled(cfg, s, step) {
      if Caller(step) == Some(c) {
        if !step.Arrive? {
          OwnStepIsLawful(cfg, s, step, c, errors);
        }
      } else if c in s.calls {
        StepLeavesOthers(cfg, s, bound, step, c);
      } else {
        NoAnswerFromNowhere(cfg, s, step, c);
      }
    }
  }

  lemma ReachStaysLawful(cfg: Config, s: System, steps: seq<Step>, k: nat, c: nat)
    requires Init(s) && k < |steps| && LawfulIn(cfg, Reach(cfg, s, steps, k), c, Errors(cfg, s, steps, k, c))
    ensures LawfulIn(cfg, Reach(cfg, s, steps, k + 1), c, Errors(cfg, s, steps, k + 1, c))
  {
    var t, errors := Reach(cfg, s, steps, k), Errors(cfg, s, steps, k, c);
    PgCreateRuns.ReachKeeps(cfg, s, steps, k);
    NextIsLawful(cfg, t, PgCreateRuns.Bound(cfg, s), steps[k], c, errors);
    ErrorsUnfold(cfg, s, steps, k, c);
  }

  lemma ErrorsUnfold(cfg: Config, s: System, steps: seq<Step>, k: nat, c: nat)
    requires k < |steps|
    ensures Reach(cfg, s, steps, k + 1) == Next(cfg, Reach(cfg, s, steps, k), steps[k])
    ensures Errors(cfg, s, steps, k + 1, c)
            == With(Errors(cfg, s, steps, k, c), AttemptError(cfg, Reach(cfg, s, steps, k), steps[k], c))
  {
  }

  /** In every run, every call obeys the law of its retries. */
  lemma {:induction false} ReachIsLawful(cfg: Config, s: System, steps: seq<Step>, k: nat, c: nat)
    requires Init(s) && k <= |steps|
    ensures LawfulIn(cfg, Reach(cfg, s, steps, k), c, Errors(cfg, s, steps, k, c))
  {
    if k > 0 {
      ReachIsLawful(cfg, s, steps, k - 1, c);
      ReachStaysLawful(cfg, s, steps, k - 1, c);
    }
  }

  /** A call that returns a retryable error has used up its attempts: each of them ended with one. */
  lemma AttemptsAreUsedUp(cfg: Config, s: System, steps: seq<Step>, k: nat, c: nat, e: Error)
    requires Init(s) && k <= |steps| && cfg.maxAttempts >= 1
    requires c in Reach(cfg, s, steps, k).calls && Reach(cfg, s, steps, k).calls[c].pc == Returned(Some(e))
    requires Retryable(e)
    ensures var errors := Errors(cfg, s, steps, k, c); |errors| == cfg.maxAttempts && AllRetryable(errors)
  {
    ReachIsLawful(cfg, s, steps, k, c);
    UsedUp(cfg, Reach(cfg, s, steps, k).calls[c], Errors(cfg, s, steps, k, c), e);
  }

  lemma UsedUp(cfg: Config, call: Call, errors: seq<Error>, e: Error)
    requires cfg.maxAttempts >= 1 && Lawful(cfg, call, errors) && call.pc == Returned(Some(e)) && Retryable(e)
    ensures |errors| == cfg.maxAttempts && AllRetryable(errors)
  {
    var front := errors[..|errors| - 1];
    forall i | 0 <= i < |errors| ensures Retryable(errors[i]) {
      assert i < |front| ==> front[i] == errors[i];
    }
  }

  // ---------------------------------------------------------------------------
  // The same as retryOperation

  /** The environment in which retryOperation meets these errors, and then `last`. */
  function AsEnvironment(errors: seq<Error>, last: RetryLoops.Attempt): nat -> RetryLoops.Attempt {
    (n: nat) => if n < |errors| then RetryLoops.Attempt(None, None, None, Some(errors[n])) else last
  }

  lemma {:induction false} SkipsRetryable(cfg: RetryLoops.PgConfig, errors: seq<Error>,
                                          last: RetryLoops.Attempt, n: nat)
    requires n <= |errors| && AllRetryable(errors[..n]) && (n > 0 ==> n <= cfg.maxAttempts)
    ensures var env := AsEnvironment(errors, last);
            RetryLoops.Executions(cfg, env, 0) == n + RetryLoops.Executions(cfg, env, n)
  {
    if n > 0 {
      assert AllRetryable(errors[..n - 1]) by {
        assert forall i :: 0 <= i < n - 1 ==> errors[..n - 1][i] == errors[..n][i];
      }
      SkipsRetryable(cfg, errors, last, n - 1);
      assert errors[..n][n - 1] == errors[n - 1];
    }
  }

  /** What the call's next attempt comes to: nil, the context's error before it, or nothing. */
  function LastAttempt(call: Call, errors: seq<Error>): RetryLoops.Attempt {
    if call.pc.Returned? && call.pc.err.Some? then RetryLoops.Attempt(call.pc.err, None, None, None)
    else RetryLoops.Attempt(None, None, None, None)
  }

  /** A call that has returned (other than for an invalid user) has made the calls that retryOperation makes in
      that environment: one for each error, and one more if it succeeded. */
  lemma IsRetryOperation(cfg: Config, s: System, steps: seq<Step>, k: nat, c: nat, base: int, cap: int)
    requires Init(s) && k <= |steps| && cfg.maxAttempts >= 1
    requires c in Reach(cfg, s, steps, k).calls && Reach(cfg, s, steps, k).calls[c].pc.Returned?
    requires Errors(cfg, s, steps, k, c) != [] || Reach(cfg, s, steps, k).calls[c].pc.err == None
    ensures var call, errors := Reach(cfg, s, steps, k).calls[c], Errors(cfg, s, steps, k, c);
            RetryLoops.Executions(RetryLoops.PgConfig(cfg.maxAttempts, base, cap),
                                  AsEnvironment(errors, LastAttempt(call, errors)), 0)
            == |errors| + if call.pc.err == None then 1 else 0
  {
    var call, errors := Reach(cfg, s, steps, k).calls[c], Errors(cfg, s, steps, k, c);
    ReachIsLawful(cfg, s, steps, k, c);
    ReturnedLawfully(cfg, call, errors, base, cap);
  }

  lemma ReturnedLawfully(cfg: Config, call: Call, errors: seq<Error>, base: int, cap: int)
    requires cfg.maxAttempts >= 1 && call.pc.Returned? && Lawful(cfg, call, errors)
    requires errors != [] || call.pc.err == None
    ensures RetryLoops.Executions(RetryLoops.PgConfig(cfg.maxAttempts, base, cap),
                                  AsEnvironment(errors, LastAttempt(call, errors)), 0)
            == |errors| + if call.pc.err == None then 1 else 0
  {
    var pg, last, n := RetryLoops.PgConfig(cfg.maxAttempts, base, cap), LastAttempt(call, errors), |errors|;
    if GoesOn(cfg, call, errors) {
      assert errors[..n] == errors;
      SkipsRetryable(pg, errors, last, n);
    } else {
      SkipsRetryable(pg, errors, last, n - 1);
    }
  }

  // ---------------------------------------------------------------------------
  // Invalid users

  predicate Arrived(cfg: Config, s: System, steps: seq<Step>, j: nat, c: nat, user: Option<User>)
    requires j < |steps|
  {
    steps[j].Arrive? && steps[j].call == c && steps[j].user == user && Enabled(cfg, Reach(cfg, s, steps, j), steps[j])
  }

  lemma OnlyArrivalsAreInvalid(cfg: Config, s: System, bound: int, step: Step, c: nat)
    requires Invariant(cfg, s, bound) && c in s.calls
    ensures c in Next(cfg, s, step).calls
    ensures Next(cfg, s, step).calls[c].pc == Returned(Some(Invalid)) <==> s.calls[c].pc == Returned(Some(Invalid))
  {
    if Enabled(cfg, s, step) {
      if Caller(step) == Some(c) {
        OwnErrorIsNotInvalid(cfg, s, step, c);
      } else {
        StepLeavesOthers(cfg, s, bound, step, c);
      }
    }
  }

  lemma OwnErrorIsNotInvalid(cfg: Config, s: System, step: Step, c: nat)
    requires c in s.calls && Enabled(cfg, s, step) && Caller(step) == Some(c)
    ensures c in Apply(cfg, s, step).calls
    ensures s.calls[c].pc != Returned(Some(Invalid)) && Apply(cfg, s, step).calls[c].pc != Returned(Some(Invalid))
  {
    match step
    case Arrive(_, _, _) =>
    case Begin(_) =>
    case BeginFails(_, _) =>
    case Break(_, _, _) =>
    case GiveUp(_, _) =>
    case Commit(_) =>
    case _ =>
  }

  /** A create returns ErrInvalid if and only if it is given no user, or one without id, name, email or times. */
  lemma {:induction false} InvalidIff(cfg: Config, s: System, steps: seq<Step>, j: nat, k: nat, c: nat,
                                      user: Option<User>)
    requires Init(s) && j < k <= |steps| && Arrived(cfg, s, steps, j, c, user)
    ensures var t := Reach(cfg, s, steps, k);
            && c in t.calls
            && (t.calls[c].pc == Returned(Some(Invalid)) <==>
                || user == None || user.value.id == [] || user.value.name == [] || user.value.email == []
                || user.value.createdAt == None || user.value.createdAt == Some(ZERO_TIME)
                || user.value.updatedAt == None || user.value.updatedAt == Some(ZERO_TIME))
  {
    if k > j + 1 {
      InvalidIff(cfg, s, steps, j, k - 1, c, user);
      PgCreateRuns.ReachKeeps(cfg, s, steps, k - 1);
      OnlyArrivalsAreInvalid(cfg, Reach(cfg, s, steps, k - 1), PgCreateRuns.Bound(cfg, s), steps[k - 1], c);
    }
  }
}
