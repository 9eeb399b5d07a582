/**
 The circuit breaker's transition functions. `beforeCall` and `afterCall` each run
 under the breaker's mutex, so each is one atomic step on its state.
 */
module Breaker {
  import opened Base

  datatype Mode = Closed | Open | HalfOpen

  datatype Config = Config(failureThreshold: int, successThreshold: int, openTimeout: int, maxHalfOpen: int) {
    predicate Normal() {
      failureThreshold > 0 && successThreshold > 0 && openTimeout > 0 && maxHalfOpen > 0
    }
  }

  const DEFAULTS := Config(5, 2, 30_000_000_000, 2)

  /** The constructor's fallback of non-positive settings to the defaults. */
  function Normalize(c: Config): (r: Config)
    ensures r.Normal()
    ensures c.Normal() ==> r == c
    ensures r.failureThreshold == c.failureThreshold || (c.failureThreshold <= 0 && r.failureThreshold == 5)
    ensures r.successThreshold == c.successThreshold || (c.successThreshold <= 0 && r.successThreshold == 2)
    ensures r.openTimeout == c.openTimeout || (c.openTimeout <= 0 && r.openTimeout == 30_000_000_000)
    ensures r.maxHalfOpen == c.maxHalfOpen || (c.maxHalfOpen <= 0 && r.maxHalfOpen == 2)
  {
    Config(
      if c.failureThreshold <= 0 then DEFAULTS.failureThreshold else c.failureThreshold,
      if c.successThreshold <= 0 then DEFAULTS.successThreshold else c.successThreshold,
      if c.openTimeout <= 0 then DEFAULTS.openTimeout else c.openTimeout,
      if c.maxHalfOpen <= 0 then DEFAULTS.maxHalfOpen else c.maxHalfOpen)
  }

  datatype State = State(mode: Mode, failures: nat, successes: nat, halfOpen: nat, lastFailureAt: int, openSince: int)

  const FRESH := State(Closed, 0, 0, 0, 0, 0)

  /** `beforeCall` at time `now`: the new state, and the error when the call is rejected. */
  function Before(cfg: Config, s: State, now: int): (State, Option<Error>) {
    match s.mode
    case Open =>
      if now - s.openSince > cfg.openTimeout
      then (s.(mode := HalfOpen, successes := 0, halfOpen := 1), None)
      else (s, Some(CircuitOpen))
    case HalfOpen =>
      if s.halfOpen >= cfg.maxHalfOpen then (s, Some(CircuitOpen)) else (s.(halfOpen := s.halfOpen + 1), None)
    case Closed => (s, None)
  }

  predicate Admits(cfg: Config, s: State, now: int) {
    Before(cfg, s, now).1 == None
  }

  /** Only the bare sentinel is ignored; a wrapped one is a failure like any other. */
  predicate Counted(err: Option<Error>) {
    err.Some? && err.value != Unavailable
  }

  /** `afterCall` at time `now`, for a call that ended with `err`. */
  function After(cfg: Config, s: State, err: Option<Error>, now: int): State {
    if err == None then
      match s.mode
      case HalfOpen =>
        if s.successes + 1 >= cfg.successThreshold
        then s.(mode := Closed, failures := 0, successes := 0, halfOpen := 0)
        else s.(successes := s.successes + 1)
      case Closed => s.(failures := 0)
      case Open => s
    else if err == Some(Unavailable) then s
    else if s.mode == HalfOpen then
      s.(mode := Open, failures := 0, lastFailureAt := now, openSince := now)
    else if s.mode == Closed && s.failures + 1 >= cfg.failureThreshold then
      s.(mode := Open, failures := s.failures + 1, lastFailureAt := now, openSince := now)
    else
      s.(failures := s.failures + 1, lastFailureAt := now)
  }

  function Reset(s: State): State {
    s.(mode := Closed, failures := 0, successes := 0, halfOpen := 0)
  }
}
