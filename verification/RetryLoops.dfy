/**
 The two retry loops: PostgreSQL's retryOperation and the client's unary interceptor. What
 each attempt meets (context, random numbers, the result of the operation) is given by an
 environment indexed by attempt; the loops also return the calls they made and the waits
 they asked for.
 */
module RetryLoops {
  import opened Base
  import opened Backoff
  import PgCreate
  import opened Rpc

  function Sum(s: seq<int>): int {
    if s == [] then 0 else Sum(s[..|s| - 1]) + s[|s| - 1]
  }

  // ---------------------------------------------------------------------------
  // retryOperation

  datatype PgConfig = PgConfig(maxAttempts: int, base: int, cap: int) {
    /** The arithmetic of every wait of the loop stays within int64. */
    predicate Exact() {
      && base > 0 && 0 < cap <= TWO_62
      && (maxAttempts >= 2 ==> base * Pow2(maxAttempts - 2) < TWO_63)
    }
  }

  /** One attempt: the context before the wait, the context during it, the jitter, and the operation's error. */
  datatype Attempt = Attempt(before: Option<Error>, during: Option<Error>, roll: Option<nat>, result: Option<Error>)

  predicate Again(result: Option<Error>) {
    result.Some? && PgCreate.Retryable(result.value)
  }

  /** The context has ended before the wait for an attempt, or during it. */
  predicate CutOff(a: Attempt) {
    a.before.Some? || a.during.Some?
  }

  /** How often the operation is called from attempt `n` on. */
  function Executions(cfg: PgConfig, env: nat -> Attempt, n: nat): nat
    decreases cfg.maxAttempts - n
  {
    if n >= cfg.maxAttempts || (n > 0 && CutOff(env(n))) then 0
    else 1 + if Again(env(n).result) then Executions(cfg, env, n + 1) else 0
  }

  /** Every call but the last failed retryably, in a live context; the last one did not, or used up the
      attempts, or the context ended before the next. */
  lemma {:induction false} ExecutionsStop(cfg: PgConfig, env: nat -> Attempt, n: nat)
    requires n <= cfg.maxAttempts
    ensures var end := n + Executions(cfg, env, n);
            && end <= cfg.maxAttempts
            && (forall i: nat :: n <= i < end - 1 ==> Again(env(i).result))
            && (forall i: nat :: n < i < end ==> !CutOff(env(i)))
            && (n < end < cfg.maxAttempts ==> !Again(env(end - 1).result) || CutOff(env(end)))
    decreases cfg.maxAttempts - n
  {
    if Executions(cfg, env, n) > 0 && Again(env(n).result) {
      ExecutionsStop(cfg, env, n + 1);
    }
  }

  /** The results of the first `n` calls. */
  function Results(env: nat -> Attempt, n: nat): seq<Option<Error>> {
    if n == 0 then [] else Results(env, n - 1) + [env(n - 1).result]
  }

  /** The first `n` waits. */
  function PgWaits(wait: (nat, Option<nat>) -> int, env: nat -> Attempt, n: nat): seq<int> {
    if n == 0 then [] else PgWaits(wait, env, n - 1) + [wait(n - 1, env(n).roll)]
  }

  lemma {:induction false} ResultsAt(env: nat -> Attempt, n: nat)
    ensures |Results(env, n)| == n && forall i :: 0 <= i < n ==> Results(env, n)[i] == env(i).result
  {
    if n > 0 {
      ResultsAt(env, n - 1);
    }
  }

  /** `backoffDuration` with the loop's settings. */
  function PgWait(cfg: PgConfig): (nat, Option<nat>) -> int {
    (i: nat, roll: Option<nat>) => PgBackoff(cfg.base, i, cfg.cap, roll)
  }

  lemma {:induction false} PgWaitsAt(wait: (nat, Option<nat>) -> int, env: nat -> Attempt, n: nat)
    ensures |PgWaits(wait, env, n)| == n
    ensures forall i :: 0 <= i < n ==> PgWaits(wait, env, n)[i] == wait(i, env(i + 1).roll)
  {
    if n > 0 {
      PgWaitsAt(wait, env, n - 1);
    }
  }

  /** The waits are the backoffs of the retries. */
  predicate ArePgWaits(cfg: PgConfig, env: nat -> Attempt, waits: seq<int>) {
    forall i :: 0 <= i < |waits| ==> waits[i] == PgBackoff(cfg.base, i, cfg.cap, env(i + 1).roll)
  }

  lemma PgWaitsAre(cfg: PgConfig, env: nat -> Attempt, n: nat)
    ensures |PgWaits(PgWait(cfg), env, n)| == n && ArePgWaits(cfg, env, PgWaits(PgWait(cfg), env, n))
  {
    PgWaitsAt(PgWait(cfg), env, n);
  }

  /** `retryOperation`'s loop; `wait` is its backoff. */
  method RetryLoop(cfg: PgConfig, wait: (nat, Option<nat>) -> int, env: nat -> Attempt)
    returns (err: Option<Error>, calls: seq<Option<Error>>, waits: seq<int>)
    ensures var n := Executions(cfg, env, 0);
            var stopped := 0 < n < cfg.maxAttempts && Again(env(n - 1).result);
            && calls == Results(env, n)
            && (stopped ==> err == if env(n).before.Some? then env(n).before else env(n).during)
            && (!stopped ==> err == if n == 0 then None else env(n - 1).result)
            && waits == PgWaits(wait, env, if n == 0 then 0 else if stopped && env(n).before == None then n else n - 1)
  {
    err, calls, waits := None, [], [];
    var attempt := 0;
    while attempt < cfg.maxAttempts
      invariant attempt <= cfg.maxAttempts || attempt == 0
      invariant Executions(cfg, env, 0) == attempt + Executions(cfg, env, attempt)
      invariant calls == Results(env, attempt)
      invariant waits == PgWaits(wait, env, if attempt == 0 then 0 else attempt - 1)
      invariant attempt > 0 ==> Again(env(attempt - 1).result)
      invariant err == if attempt == 0 then None else env(attempt - 1).result
    {
      var now := env(attempt);
      if attempt > 0 {
        if now.before.Some? {
          return now.before, calls, waits;
        }
        waits := waits + [wait(attempt - 1, now.roll)];
        if now.during.Some? {
          return now.during, calls, waits;
        }
      }
      calls := calls + [now.result];
      err := now.result;
      if err == None {
        return;
      }
      if !PgCreate.Retryable(err.value) {
        return;
      }
      attempt := attempt + 1;
    }
  }

  /** It calls the operation at most maxAttempts times, in order, and not at all when that is not positive. Every
      call but the last failed retryably, and every call but the first found its context live. */
  predicate CallsRight(cfg: PgConfig, env: nat -> Attempt, calls: seq<Option<Error>>) {
    && |calls| <= (if cfg.maxAttempts <= 0 then 0 else cfg.maxAttempts)
    && (cfg.maxAttempts >= 1 ==> |calls| >= 1)
    && (forall i :: 0 <= i < |calls| ==> calls[i] == env(i).result)
    && (forall i :: 0 <= i < |calls| - 1 ==> Again(calls[i]))
    && (forall i :: 0 < i < |calls| ==> env(i).before == None && env(i).during == None)
  }

  /** The last call failed retryably and there are attempts left: the loop has stopped for the context. */
  predicate Stopped(cfg: PgConfig, calls: seq<Option<Error>>) {
    1 <= |calls| < cfg.maxAttempts && Again(calls[|calls| - 1])
  }

  /** The context's error if the loop has stopped for that, which is then an error; otherwise the last call's
      result, or nil without a call. */
  predicate ErrorRight(cfg: PgConfig, env: nat -> Attempt, calls: seq<Option<Error>>, err: Option<Error>) {
    if Stopped(cfg, calls) then
      err.Some? && err == if env(|calls|).before.Some? then env(|calls|).before else env(|calls|).during
    else
      err == if calls == [] then None else calls[|calls| - 1]
  }

  /** One wait for each retry, and one that the context cut short. */
  predicate WaitsRight(cfg: PgConfig, env: nat -> Attempt, calls: seq<Option<Error>>, waits: seq<int>) {
    && |waits| == (if calls == [] then 0
                   else if Stopped(cfg, calls) && env(|calls|).before == None then |calls| else |calls| - 1)
    && ArePgWaits(cfg, env, waits)
  }

  lemma ResultsRight(cfg: PgConfig, env: nat -> Attempt)
    ensures var n := Executions(cfg, env, 0);
            && |Results(env, n)| == n && CallsRight(cfg, env, Results(env, n))
            && (0 < n < cfg.maxAttempts && Again(env(n - 1).result) ==> CutOff(env(n)))
  {
    ResultsAt(env, Executions(cfg, env, 0));
    if cfg.maxAttempts >= 0 {
      ExecutionsStop(cfg, env, 0);
    }
  }

  lemma LastResult(env: nat -> Attempt, n: nat)
    requires n > 0
    ensures |Results(env, n)| == n && Results(env, n)[n - 1] == env(n - 1).result
  {
    ResultsAt(env, n);
  }

  method RetryOperation(cfg: PgConfig, env: nat -> Attempt)
    returns (err: Option<Error>, calls: seq<Option<Error>>, waits: seq<int>)
    ensures |calls| == Executions(cfg, env, 0) && CallsRight(cfg, env, calls)
    ensures ErrorRight(cfg, env, calls, err)
    ensures WaitsRight(cfg, env, calls, waits)
    // So it returns nil exactly when the last call did.
    ensures cfg.maxAttempts >= 1 ==> (err == None <==> calls[|calls| - 1] == None)
  {
    err, calls, waits := RetryLoop(cfg, PgWait(cfg), env);
    ghost var n := Executions(cfg, env, 0);
    ResultsRight(cfg, env);
    PgWaitsAre(cfg, env, n);
    if n > 0 {
      LastResult(env, n);
      PgWaitsAre(cfg, env, n - 1);
    }
  }

  /** The wait before retry `i + 1` is within a quarter of min(base * 2^i, cap). */
  predicate WaitAsDocumented(cfg: PgConfig, i: nat, roll: Option<nat>) {
    var d, w := Min(cfg.base * Pow2(i), cfg.cap), PgBackoff(cfg.base, i, cfg.cap, roll);
    d - d / 4 <= w <= d + d / 4
  }

  /** Every wait the loop can ask for is as documented if and only if the configuration is exact. */
  lemma WaitsAsDocumentedIff(cfg: PgConfig)
    requires 0 < cfg.base < TWO_63 && 0 < cfg.cap <= TWO_62
    ensures (forall i: nat, roll :: i <= cfg.maxAttempts - 2 ==> WaitAsDocumented(cfg, i, roll)) <==> cfg.Exact()
  {
    if cfg.Exact() {
      forall i: nat, roll | i <= cfg.maxAttempts - 2 ensures WaitAsDocumented(cfg, i, roll) {
        EarlierProductIsSmaller(cfg.base, i, cfg.maxAttempts - 2);
        PgBackoffBounds(cfg.base, i, cfg.cap, roll);
      }
    } else {
      var i := SomeAttemptOverflows(cfg.base, cfg.maxAttempts - 2);
      EarlierProductIsSmaller(cfg.base, i, i);
      assert PgBackoff(cfg.base, i, cfg.cap, None) < 0;
      assert !WaitAsDocumented(cfg, i, None);
    }
  }

  /** With the default base and cap that is up to 37 attempts. */
  lemma DefaultsAreExactIff(maxAttempts: int)
    ensures PgConfig(maxAttempts, DEFAULT_BASE, 5_000_000_000).Exact() <==> maxAttempts <= 37
  {
    if maxAttempts >= 2 {
      DefaultPgBackoffOverflows(maxAttempts - 2, 0, None);
    }
  }

  lemma WaitBounded(cfg: PgConfig, i: nat, roll: Option<nat>)
    requires cfg.Exact() && i <= cfg.maxAttempts - 2
    ensures 4 * PgBackoff(cfg.base, i, cfg.cap, roll) <= 5 * cfg.cap
  {
    EarlierProductIsSmaller(cfg.base, i, cfg.maxAttempts - 2);
    PgBackoffBounds(cfg.base, i, cfg.cap, roll);
    var d := Delay(cfg.base, i, cfg.cap);
    assert 4 * (d + d / 4) <= 5 * d;
  }

  lemma {:induction false} SumBounded(s: seq<int>, c: int)
    requires forall i :: 0 <= i < |s| ==> 4 * s[i] <= c
    ensures 4 * Sum(s) <= c * |s|
  {
    if s != [] {
      var n := |s| - 1;
      SumBounded(s[..n], c);
      assert c * |s| == c * n + c;
    }
  }

  lemma BoundedWaitsAddUp(waits: seq<int>, cap: int, n: nat)
    requires cap > 0 && |waits| <= n && forall i :: 0 <= i < |waits| ==> 4 * waits[i] <= 5 * cap
    ensures 4 * Sum(waits) <= 5 * cap * n
  {
    SumBounded(waits, 5 * cap);
    Scale(|waits|, n, 5 * cap);
  }

  /** All the waits the loop asks for add up to at most 1.25 * cap * (maxAttempts - 1). */
  lemma TotalWaiting(cfg: PgConfig, env: nat -> Attempt, waits: seq<int>)
    requires cfg.Exact() && |waits| <= cfg.maxAttempts - 1
    requires ArePgWaits(cfg, env, waits)
    ensures 4 * Sum(waits) <= 5 * cfg.cap * (cfg.maxAttempts - 1)
  {
    forall i | 0 <= i < |waits| ensures 4 * waits[i] <= 5 * cfg.cap {
      WaitBounded(cfg, i, env(i + 1).roll);
    }
    BoundedWaitsAddUp(waits, cfg.cap, cfg.maxAttempts - 1);
  }

  // ---------------------------------------------------------------------------
  // The client's unary interceptor

  datatype ClientConfig = ClientConfig(maxAttempts: int, base: int, max: int, retryable: seq<Code>)

  const SAFE_CODES := [Code.Unavailable, Code.ResourceExhausted]

  /** `shouldRetry`: the configured codes for callers that opted in, the safe ones otherwise. */
  method ShouldRetry(cfg: ClientConfig, optIn: bool, code: Code) returns (r: bool)
    ensures r <==> MayRetry(cfg, optIn, code)
    ensures optIn ==> (r <==> code in cfg.retryable)
    ensures !optIn ==> (r <==> code == Code.Unavailable || code == Code.ResourceExhausted)
  {
    if optIn {
      r := Contains(cfg.retryable, code);
    } else {
      r := Contains(SAFE_CODES, code);
    }
  }

  method Contains(codes: seq<Code>, code: Code) returns (r: bool)
    ensures r <==> code in codes
  {
    var i := 0;
    while i < |codes|
      invariant i <= |codes| && code !in codes[..i]
    {
      if codes[i] == code {
        return true;
      }
      i := i + 1;
    }
    assert codes[..i] == codes;
    return false;
  }

  predicate MayRetry(cfg: ClientConfig, optIn: bool, code: Code) {
    if optIn then code in cfg.retryable else code == Code.Unavailable || code == Code.ResourceExhausted
  }

  /** How one invocation ends: a status (OK included), or an error that carries none. */
  datatype Outcome = Status(code: Code) | NoStatus

  /** What the interceptor returns: an invocation's outcome, or the context's error. */
  datatype ClientResult = FromCall(outcome: Outcome) | FromContext

  datatype Trip = Trip(before: bool, during: bool, roll: nat, outcome: Outcome)

  predicate Retried(cfg: ClientConfig, optIn: bool, o: Outcome) {
    o.Status? && o.code != Code.OK && MayRetry(cfg, optIn, o.code)
  }

  /** How many invocations the interceptor makes from attempt `n` on: it stops after a call whose outcome is
      not retried, after the last attempt, and when the context ends before or during a wait. */
  function Invocations(cfg: ClientConfig, optIn: bool, env: nat -> Trip, n: nat): nat
    decreases cfg.maxAttempts - n
  {
    if n >= cfg.maxAttempts || (n > 0 && (env(n).before || env(n).during)) then 0
    else 1 + if Retried(cfg, optIn, env(n).outcome) then Invocations(cfg, optIn, env, n + 1) else 0
  }

  /** Every call but the last is retried, in a live context; the last one is not retried, or uses up the
      attempts, or the context ends before the next. */
  lemma {:induction false} InvocationsStop(cfg: ClientConfig, optIn: bool, env: nat -> Trip, n: nat)
    requires n <= cfg.maxAttempts
    ensures var end := n + Invocations(cfg, optIn, env, n);
            && end <= cfg.maxAttempts
            && (forall i: nat :: n <= i < end - 1 ==> Retried(cfg, optIn, env(i).outcome))
            && (forall i: nat :: n < i < end ==> !env(i).before && !env(i).during)
            && (n < end < cfg.maxAttempts ==>
                !Retried(cfg, optIn, env(end - 1).outcome) || env(end).before || env(end).during)
    decreases cfg.maxAttempts - n
  {
    if Invocations(cfg, optIn, env, n) > 0 && Retried(cfg, optIn, env(n).outcome) {
      InvocationsStop(cfg, optIn, env, n + 1);
    }
  }

  /** The outcomes of the first `n` invocations. */
  function Outcomes(env: nat -> Trip, n: nat): seq<Outcome> {
    if n == 0 then [] else Outcomes(env, n - 1) + [env(n - 1).outcome]
  }

  /** The first `n` waits. */
  function ClientWaits(wait: (nat, nat) -> int, env: nat -> Trip, n: nat): seq<int> {
    if n == 0 then [] else ClientWaits(wait, env, n - 1) + [wait(n - 1, env(n).roll)]
  }

  lemma {:induction false} OutcomesAt(env: nat -> Trip, n: nat)
    ensures |Outcomes(env, n)| == n && forall i :: 0 <= i < n ==> Outcomes(env, n)[i] == env(i).outcome
  {
    if n > 0 {
      OutcomesAt(env, n - 1);
    }
  }

  /** The client's backoff with the interceptor's settings. */
  function ClientWait(cfg: ClientConfig): (nat, nat) -> int {
    (i: nat, roll: nat) => ClientBackoff(cfg.base, cfg.max, i, roll)
  }

  lemma {:induction false} ClientWaitsAt(wait: (nat, nat) -> int, env: nat -> Trip, n: nat)
    ensures |ClientWaits(wait, env, n)| == n
    ensures forall i :: 0 <= i < n ==> ClientWaits(wait, env, n)[i] == wait(i, env(i + 1).roll)
  {
    if n > 0 {
      ClientWaitsAt(wait, env, n - 1);
    }
  }

  /** The waits are the client's backoffs, so each lies in [1, MaxBackoff]. */
  predicate AreClientWaits(cfg: ClientConfig, env: nat -> Trip, waits: seq<int>) {
    && (forall i :: 0 <= i < |waits| ==> waits[i] == ClientBackoff(cfg.base, cfg.max, i, env(i + 1).roll))
    && (cfg.max >= 1 ==> forall i :: 0 <= i < |waits| ==> 1 <= waits[i] <= cfg.max)
  }

  lemma ClientWaitsAre(cfg: ClientConfig, env: nat -> Trip, n: nat)
    ensures |ClientWaits(ClientWait(cfg), env, n)| == n
    ensures AreClientWaits(cfg, env, ClientWaits(ClientWait(cfg), env, n))
  {
    var waits := ClientWaits(ClientWait(cfg), env, n);
    ClientWaitsAt(ClientWait(cfg), env, n);
    if cfg.max >= 1 {
      forall i | 0 <= i < n ensures 1 <= waits[i] <= cfg.max {
        ClientBackoffInRange(cfg.base, cfg.max, i, env(i + 1).roll, 0);
      }
    }
  }

  /** The interceptor's loop; `wait` is its backoff. */
  method Intercept(cfg: ClientConfig, optIn: bool, wait: (nat, nat) -> int, env: nat -> Trip)
    returns (result: ClientResult, calls: seq<Outcome>, waits: seq<int>)
    ensures var n := Invocations(cfg, optIn, env, 0);
            && calls == Outcomes(env, n)
            && result == (if n == 0 then FromCall(Status(Code.OK))
                          else if n < cfg.maxAttempts && Retried(cfg, optIn, env(n - 1).outcome) then FromContext
                          else FromCall(env(n - 1).outcome))
            && waits == ClientWaits(wait, env, if n == 0 then 0
                                               else if result.FromContext? && !env(n).before then n else n - 1)
  {
    result, calls, waits := FromCall(Status(Code.OK)), [], [];
    var attempt := 0;
    while attempt < cfg.maxAttempts
      invariant attempt <= cfg.maxAttempts || attempt == 0
      invariant Invocations(cfg, optIn, env, 0) == attempt + Invocations(cfg, optIn, env, attempt)
      invariant calls == Outcomes(env, attempt)
      invariant waits == ClientWaits(wait, env, if attempt == 0 then 0 else attempt - 1)
      invariant attempt > 0 ==> Retried(cfg, optIn, env(attempt - 1).outcome)
      invariant result == FromCall(if attempt == 0 then Status(Code.OK) else env(attempt - 1).outcome)
    {
      var now := env(attempt);
      if attempt > 0 {
        if now.before {
          return FromContext, calls, waits;
        }
        waits := waits + [wait(attempt - 1, now.roll)];
        if now.during {
          return FromContext, calls, waits;
        }
      }
      calls := calls + [now.outcome];
      result := FromCall(now.outcome);
      if now.outcome == Status(Code.OK) || now.outcome.NoStatus? {
        return;
      }
      var again := ShouldRetry(cfg, optIn, now.outcome.code);
      if !again {
        return;
      }
      attempt := attempt + 1;
    }
  }

  /** At most maxAttempts calls, in order, and none when that is not positive. Every call but the last failed with
      a code that may be retried, and every call but the first found its context live. */
  predicate UnaryCallsRight(cfg: ClientConfig, optIn: bool, env: nat -> Trip, calls: seq<Outcome>) {
    && |calls| <= (if cfg.maxAttempts <= 0 then 0 else cfg.maxAttempts)
    && (cfg.maxAttempts >= 1 ==> |calls| >= 1)
    && (forall i :: 0 <= i < |calls| ==> calls[i] == env(i).outcome)
    && (forall i :: 0 <= i < |calls| - 1 ==>
                      && calls[i].Status? && calls[i].code != Code.OK
                      && if optIn then calls[i].code in cfg.retryable
                         else calls[i].code == Code.Unavailable || calls[i].code == Code.ResourceExhausted)
    && (forall i :: 0 < i < |calls| ==> !env(i).before && !env(i).during)
  }

  /** The context's error if the last call failed retryably with attempts left, and the context has then ended;
      otherwise the last call's outcome, or nil without a call. */
  predicate UnaryResultRight(cfg: ClientConfig, optIn: bool, env: nat -> Trip, calls: seq<Outcome>,
                             result: ClientResult)
  {
    if 1 <= |calls| < cfg.maxAttempts && Retried(cfg, optIn, calls[|calls| - 1]) then
      result == FromContext && (env(|calls|).before || env(|calls|).during)
    else
      result == FromCall(if calls == [] then Status(Code.OK) else calls[|calls| - 1])
  }

  /** One wait for each retry, and one that the context cut short. */
  predicate UnaryWaitsRight(cfg: ClientConfig, env: nat -> Trip, calls: seq<Outcome>, result: ClientResult,
                            waits: seq<int>)
  {
    && |waits| == (if calls == [] then 0
                   else if result.FromContext? && !env(|calls|).before then |calls| else |calls| - 1)
    && AreClientWaits(cfg, env, waits)
  }

  lemma OutcomesRight(cfg: ClientConfig, optIn: bool, env: nat -> Trip)
    ensures var n := Invocations(cfg, optIn, env, 0);
            && |Outcomes(env, n)| == n && UnaryCallsRight(cfg, optIn, env, Outcomes(env, n))
            && (0 < n < cfg.maxAttempts && Retried(cfg, optIn, env(n - 1).outcome) ==> env(n).before || env(n).during)
  {
    OutcomesAt(env, Invocations(cfg, optIn, env, 0));
    if cfg.maxAttempts >= 0 {
      InvocationsStop(cfg, optIn, env, 0);
    }
  }

  lemma LastOutcome(env: nat -> Trip, n: nat)
    requires n > 0
    ensures |Outcomes(env, n)| == n && Outcomes(env, n)[n - 1] == env(n - 1).outcome
  {
    OutcomesAt(env, n);
  }

  method RetryUnary(cfg: ClientConfig, optIn: bool, env: nat -> Trip)
    returns (result: ClientResult, calls: seq<Outcome>, waits: seq<int>)
    ensures |calls| == Invocations(cfg, optIn, env, 0) && UnaryCallsRight(cfg, optIn, env, calls)
    ensures UnaryResultRight(cfg, optIn, env, calls, result)
    ensures UnaryWaitsRight(cfg, env, calls, result, waits)
  {
    result, calls, waits := Intercept(cfg, optIn, ClientWait(cfg), env);
    ghost var n := Invocations(cfg, optIn, env, 0);
    OutcomesRight(cfg, optIn, env);
    ClientWaitsAre(cfg, env, n);
    if n > 0 {
      LastOutcome(env, n);
      ClientWaitsAre(cfg, env, n - 1);
    }
  }
}
