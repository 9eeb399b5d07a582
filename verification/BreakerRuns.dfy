/**
 Whole runs of the circuit breaker. Calls are admitted and finished in separate
 steps, in any interleaving, so a call admitted in one mode may finish in another.
 */
module BreakerRuns {
  import opened Base
  import opened Breaker

  /** One atomic step: an attempt to admit `call`, the end of an admitted call, or a forced reset. */
  datatype Event =
    | Admit(call: nat, at: int)
    | Finish(call: nat, err: Option<Error>, at: int)
    | ForceReset(at: int)

  /** The breaker together with what happened around it: the admitted calls that have not
      finished, those of them admitted in the present half-open episode (`probes`), and how
      many of the episode's probes ended with bare ErrUnavailable (`voided`). */
  datatype System = System(b: State, inFlight: set<nat>, probes: set<nat>, voided: nat, clock: int)

  const START := System(FRESH, {}, {}, 0, 0)

  predicate Feasible(s: System, e: Event) {
    && e.at >= s.clock
    && (e.Admit? ==> e.call !in s.inFlight)
    && (e.Finish? ==> e.call in s.inFlight)
  }

  function Next(cfg: Config, s: System, e: Event): System {
    match e
    case Admit(call, at) =>
      var b := Before(cfg, s.b, at).0;
      if !Admits(cfg, s.b, at) then s.(b := b, clock := at)
      else if s.b.mode == HalfOpen then System(b, s.inFlight + {call}, s.probes + {call}, s.voided, at)
      else System(b, s.inFlight + {call}, if b.mode == HalfOpen then {call} else {}, 0, at)
    case Finish(call, err, at) =>
      var b := After(cfg, s.b, err, at);
      System(b, s.inFlight - {call},
             if b.mode == HalfOpen then s.probes - {call} else {},
             if b.mode == HalfOpen && call in s.probes && err == Some(Unavailable) then s.voided + 1 else s.voided,
             at)
    case ForceReset(at) => System(Reset(s.b), s.inFlight, {}, 0, at)
  }

  /** The system after the first `k` events. */
  function Reach(cfg: Config, evs: seq<Event>, k: nat): System
    requires k <= |evs|
  {
    if k == 0 then START else Next(cfg, Reach(cfg, evs, k - 1), evs[k - 1])
  }

  function Final(cfg: Config, evs: seq<Event>): System {
    Reach(cfg, evs, |evs|)
  }

  predicate StepFeasible(cfg: Config, evs: seq<Event>, k: nat)
    requires k < |evs|
  {
    Feasible(Reach(cfg, evs, k), evs[k])
  }

  predicate Run(cfg: Config, evs: seq<Event>) {
    forall k :: 0 <= k < |evs| ==> StepFeasible(cfg, evs, k)
  }

  predicate Admitted(cfg: Config, evs: seq<Event>, k: nat)
    requires k < |evs|
  {
    evs[k].Admit? && Admits(cfg, Reach(cfg, evs, k).b, evs[k].at)
  }

  // ---------------------------------------------------------------------------
  // What every step keeps

  predicate Invariant(cfg: Config, s: System) {
    && s.probes <= s.inFlight
    && (s.b.mode == Closed ==> s.b.failures < cfg.failureThreshold)
    && (s.b.mode == Open ==> s.b.openSince <= s.clock)
    && (s.b.mode == HalfOpen ==>
          && s.b.successes < cfg.successThreshold
          && 1 <= s.b.halfOpen <= cfg.maxHalfOpen
          && s.b.halfOpen <= s.b.successes + s.voided + |s.probes|)
  }

  lemma NextKeepsInvariant(cfg: Config, s: System, e: Event)
    requires cfg.Normal() && Invariant(cfg, s) && Feasible(s, e)
    ensures Invariant(cfg, Next(cfg, s, e))
  {
    match e
    case Admit(_, _) => AdmitKeepsInvariant(cfg, s, e);
    case Finish(_, _, _) => FinishKeepsInvariant(cfg, s, e);
    case ForceReset(_) =>
  }

  lemma AdmitKeepsInvariant(cfg: Config, s: System, e: Event)
    requires cfg.Normal() && Invariant(cfg, s) && Feasible(s, e) && e.Admit?
    ensures Invariant(cfg, Next(cfg, s, e))
  {
    assert e.call !in s.probes;
    assert |s.probes + {e.call}| == |s.probes| + 1;
  }

  lemma FinishKeepsInvariant(cfg: Config, s: System, e: Event)
    requires cfg.Normal() && Invariant(cfg, s) && Feasible(s, e) && e.Finish?
    ensures Invariant(cfg, Next(cfg, s, e))
  {
    assert e.call in s.probes ==> |s.probes - {e.call}| == |s.probes| - 1;
    assert e.call !in s.probes ==> s.probes - {e.call} == s.probes;
  }

  lemma {:induction false} InvariantHolds(cfg: Config, evs: seq<Event>, k: nat)
    requires cfg.Normal() && Run(cfg, evs) && k <= |evs|
    ensures Invariant(cfg, Reach(cfg, evs, k))
  {
    if k > 0 {
      InvariantHolds(cfg, evs, k - 1);
      assert StepFeasible(cfg, evs, k - 1);
      NextKeepsInvariant(cfg, Reach(cfg, evs, k - 1), evs[k - 1]);
    }
  }

  // ---------------------------------------------------------------------------
  // Closed: the failure count

  /** Whether event `k - 1` starts a new failure streak: a reset, the completion of a
      successful call, or the step that enters Closed. */
  predicate Restarts(cfg: Config, evs: seq<Event>, k: nat)
    requires 0 < k <= |evs|
  {
    || evs[k - 1].ForceReset?
    || (evs[k - 1].Finish? && evs[k - 1].err == None)
    || (Reach(cfg, evs, k).b.mode == Closed && Reach(cfg, evs, k - 1).b.mode != Closed)
  }

  function StreakStart(cfg: Config, evs: seq<Event>, k: nat): (r: nat)
    requires k <= |evs|
    ensures r <= k
    ensures r > 0 ==> Restarts(cfg, evs, r)
    ensures forall m :: r < m <= k ==> !Restarts(cfg, evs, m)
  {
    if k == 0 || Restarts(cfg, evs, k) then k else StreakStart(cfg, evs, k - 1)
  }

  /** The completions in `evs[from..to]` that count as failures. */
  function CountedFailures(evs: seq<Event>, from: nat, to: nat): nat
    requires from <= to <= |evs|
  {
    if from == to then 0
    else CountedFailures(evs, from, to - 1) + if evs[to - 1].Finish? && Counted(evs[to - 1].err) then 1 else 0
  }

  /** In Closed the failure count is the number of counted failures completed since the later
      of entering Closed and the last success, whatever mode those calls were admitted in. */
  lemma {:induction false} ClosedCountsTheStreak(cfg: Config, evs: seq<Event>, k: nat)
    requires cfg.Normal() && Run(cfg, evs) && k <= |evs|
    requires Reach(cfg, evs, k).b.mode == Closed
    ensures Reach(cfg, evs, k).b.failures == CountedFailures(evs, StreakStart(cfg, evs, k), k)
  {
    if k > 0 && !Restarts(cfg, evs, k) {
      ClosedCountsTheStreak(cfg, evs, k - 1);
    }
  }

  /** A step leaves Closed exactly when it is the counted failure that brings the streak to the threshold. */
  lemma LeavesClosedAtThreshold(cfg: Config, evs: seq<Event>, k: nat)
    requires cfg.Normal() && Run(cfg, evs) && k < |evs|
    requires Reach(cfg, evs, k).b.mode == Closed
    ensures Reach(cfg, evs, k + 1).b.mode != Closed <==>
            && evs[k].Finish? && Counted(evs[k].err)
            && CountedFailures(evs, StreakStart(cfg, evs, k), k + 1) == cfg.failureThreshold
    ensures Reach(cfg, evs, k + 1).b.mode != Closed ==>
            Reach(cfg, evs, k + 1).b.mode == Open && Reach(cfg, evs, k + 1).b.openSince == evs[k].at
  {
    InvariantHolds(cfg, evs, k);
    ClosedCountsTheStreak(cfg, evs, k);
  }

  // ---------------------------------------------------------------------------
  // Open: no admission within the timeout

  predicate Opens(cfg: Config, evs: seq<Event>, k: nat)
    requires k < |evs|
  {
    Reach(cfg, evs, k).b.mode != Open && Reach(cfg, evs, k + 1).b.mode == Open
  }

  /** Either still open since `since`, or the timeout has passed. */
  predicate ClosedOff(cfg: Config, s: System, since: int) {
    (s.b.mode == Open && s.b.openSince == since) || s.clock - since > cfg.openTimeout
  }

  lemma NextKeepsClosedOff(cfg: Config, s: System, e: Event, since: int)
    requires ClosedOff(cfg, s, since) && Feasible(s, e) && !e.ForceReset?
    ensures ClosedOff(cfg, Next(cfg, s, e), since)
  {
  }

  lemma OpeningStampsTime(cfg: Config, s: System, e: Event)
    requires s.b.mode != Open && Next(cfg, s, e).b.mode == Open
    ensures Next(cfg, s, e).b.openSince == e.at
  {
  }

  lemma {:induction false} OpenUntilTimeout(cfg: Config, evs: seq<Event>, i: nat, j: nat)
    requires Run(cfg, evs) && i < j <= |evs|
    requires Opens(cfg, evs, i)
    requires forall k :: i <= k < j ==> !evs[k].ForceReset?
    ensures ClosedOff(cfg, Reach(cfg, evs, j), evs[i].at)
    decreases j
  {
    if j == i + 1 {
      OpeningStampsTime(cfg, Reach(cfg, evs, i), evs[i]);
    } else {
      OpenUntilTimeout(cfg, evs, i, j - 1);
      assert StepFeasible(cfg, evs, j - 1);
      NextKeepsClosedOff(cfg, Reach(cfg, evs, j - 1), evs[j - 1], evs[i].at);
    }
  }

  /** After an opening, no call is admitted for OpenTimeout, late failures and later
      openings notwithstanding, unless the breaker is reset by force. */
  lemma NoAdmissionWithinTimeout(cfg: Config, evs: seq<Event>, i: nat, j: nat)
    requires cfg.Normal() && Run(cfg, evs) && i < j < |evs|
    requires Opens(cfg, evs, i) && Admitted(cfg, evs, j)
    requires forall k :: i <= k < j ==> !evs[k].ForceReset?
    ensures evs[j].at - evs[i].at > cfg.openTimeout
  {
    OpenUntilTimeout(cfg, evs, i, j);
    assert StepFeasible(cfg, evs, j);
  }

  /** Event `i` opens the breaker and it is open from then until event `j`. */
  ghost predicate OpenSince(cfg: Config, evs: seq<Event>, i: nat, j: nat)
    requires i < j <= |evs|
  {
    Opens(cfg, evs, i) && forall k :: i < k <= j ==> Reach(cfg, evs, k).b.mode == Open
  }

  lemma OpenKeepsStamp(cfg: Config, s: System, e: Event)
    requires s.b.mode == Open && Next(cfg, s, e).b.mode == Open
    ensures Next(cfg, s, e).b.openSince == s.b.openSince
  {
  }

  lemma {:induction false} StampedWhenOpened(cfg: Config, evs: seq<Event>, i: nat, j: nat)
    requires i < j <= |evs| && OpenSince(cfg, evs, i, j)
    ensures Reach(cfg, evs, j).b.mode == Open && Reach(cfg, evs, j).b.openSince == evs[i].at
    decreases j
  {
    assert Reach(cfg, evs, j).b.mode == Open;
    if j == i + 1 {
      OpeningStampsTime(cfg, Reach(cfg, evs, i), evs[i]);
    } else {
      StampedWhenOpened(cfg, evs, i, j - 1);
      OpenKeepsStamp(cfg, Reach(cfg, evs, j - 1), evs[j - 1]);
    }
  }

  /** An open breaker lets a call pass if and only if more than OpenTimeout has gone by since it opened, and
      that call begins a half-open episode. */
  lemma OpenAdmitsIff(cfg: Config, evs: seq<Event>, i: nat, j: nat)
    requires i < j < |evs| && OpenSince(cfg, evs, i, j) && evs[j].Admit?
    ensures Admitted(cfg, evs, j) <==> evs[j].at - evs[i].at > cfg.openTimeout
    ensures Reach(cfg, evs, j + 1).b.mode == if Admitted(cfg, evs, j) then HalfOpen else Open
  {
    StampedWhenOpened(cfg, evs, i, j);
  }

  /** Nothing else ends it but a forced reset. */
  lemma OpenEndsIff(cfg: Config, evs: seq<Event>, k: nat)
    requires k < |evs| && Reach(cfg, evs, k).b.mode == Open
    ensures Reach(cfg, evs, k + 1).b.mode == HalfOpen <==> Admitted(cfg, evs, k)
    ensures Reach(cfg, evs, k + 1).b.mode == Closed <==> evs[k].ForceReset?
  {
  }

  /** A closed breaker lets every call pass. */
  lemma ClosedAdmits(cfg: Config, evs: seq<Event>, k: nat)
    requires k < |evs| && Reach(cfg, evs, k).b.mode == Closed
    ensures Admitted(cfg, evs, k) <==> evs[k].Admit?
  {
  }

  // ---------------------------------------------------------------------------
  // Half-open: bounded probing

  function Admissions(cfg: Config, evs: seq<Event>, from: nat, to: nat): nat
    requires from <= to <= |evs|
  {
    if from == to then 0
    else Admissions(cfg, evs, from, to - 1) + if Admitted(cfg, evs, to - 1) then 1 else 0
  }

  /** Events `i` to `j` form (part of) one half-open episode: `i` enters it and none leaves it. */
  ghost predicate Episode(cfg: Config, evs: seq<Event>, i: nat, j: nat)
    requires i < j <= |evs|
  {
    && Reach(cfg, evs, i).b.mode != HalfOpen
    && forall k :: i < k <= j ==> Reach(cfg, evs, k).b.mode == HalfOpen
  }

  lemma NextCountsAdmission(cfg: Config, s: System, e: Event)
    requires Next(cfg, s, e).b.mode == HalfOpen
    ensures Next(cfg, s, e).b.halfOpen ==
            (if s.b.mode == HalfOpen then s.b.halfOpen else 0) + if e.Admit? && Admits(cfg, s.b, e.at) then 1 else 0
  {
  }

  lemma {:induction false} EpisodeCountsAdmissions(cfg: Config, evs: seq<Event>, i: nat, j: nat)
    requires i < j <= |evs| && Episode(cfg, evs, i, j)
    ensures Reach(cfg, evs, j).b.halfOpen == Admissions(cfg, evs, i, j)
    decreases j
  {
    assert Reach(cfg, evs, j).b.mode == HalfOpen;
    NextCountsAdmission(cfg, Reach(cfg, evs, j - 1), evs[j - 1]);
    if j == i + 1 {
      assert Admissions(cfg, evs, i, i) == 0;
    } else {
      EpisodeCountsAdmissions(cfg, evs, i, j - 1);
      assert Reach(cfg, evs, j - 1).b.mode == HalfOpen;
    }
  }

  /** A half-open episode admits at most MaxHalfOpenRequests calls and always still lacks a success. */
  lemma EpisodeIsBounded(cfg: Config, evs: seq<Event>, i: nat, j: nat)
    requires cfg.Normal() && Run(cfg, evs) && i < j <= |evs| && Episode(cfg, evs, i, j)
    ensures 1 <= Admissions(cfg, evs, i, j) <= cfg.maxHalfOpen
    ensures Reach(cfg, evs, j).b.successes < cfg.successThreshold
  {
    EpisodeCountsAdmissions(cfg, evs, i, j);
    InvariantHolds(cfg, evs, j);
  }

  /** Within an episode a call is let pass if and only if fewer than MaxHalfOpenRequests were before it. */
  lemma HalfOpenAdmitsIff(cfg: Config, evs: seq<Event>, i: nat, j: nat)
    requires i < j < |evs| && Episode(cfg, evs, i, j) && evs[j].Admit?
    ensures Admitted(cfg, evs, j) <==> Admissions(cfg, evs, i, j) < cfg.maxHalfOpen
    ensures Reach(cfg, evs, j + 1).b.mode == HalfOpen
  {
    EpisodeCountsAdmissions(cfg, evs, i, j);
    assert Reach(cfg, evs, j).b.mode == HalfOpen;
  }

  /** The calls that end successfully in events `from` to `to`, whenever they were admitted. */
  function Successes(evs: seq<Event>, from: nat, to: nat): nat
    requires from <= to <= |evs|
  {
    if from == to then 0
    else Successes(evs, from, to - 1) + if evs[to - 1].Finish? && evs[to - 1].err == None then 1 else 0
  }

  lemma NextCountsSuccess(cfg: Config, s: System, e: Event)
    requires Next(cfg, s, e).b.mode == HalfOpen
    ensures s.b.mode != HalfOpen ==> Next(cfg, s, e).b.successes == 0 && e.Admit?
    ensures s.b.mode == HalfOpen ==>
              Next(cfg, s, e).b.successes == s.b.successes + if e.Finish? && e.err == None then 1 else 0
  {
  }

  lemma {:induction false} EpisodeCountsSuccesses(cfg: Config, evs: seq<Event>, i: nat, j: nat)
    requires i < j <= |evs| && Episode(cfg, evs, i, j)
    ensures Reach(cfg, evs, j).b.successes == Successes(evs, i, j)
    decreases j
  {
    assert Reach(cfg, evs, j).b.mode == HalfOpen;
    NextCountsSuccess(cfg, Reach(cfg, evs, j - 1), evs[j - 1]);
    if j == i + 1 {
      assert Successes(evs, i, i) == 0;
    } else {
      EpisodeCountsSuccesses(cfg, evs, i, j - 1);
      assert Reach(cfg, evs, j - 1).b.mode == HalfOpen;
    }
  }

  /** An episode ends in Open exactly at an error other than the bare sentinel, and in Closed exactly at the
      success that completes SuccessThreshold of them, or at a forced reset. */
  lemma HalfOpenEndsIff(cfg: Config, evs: seq<Event>, i: nat, j: nat)
    requires cfg.Normal() && Run(cfg, evs) && i < j < |evs| && Episode(cfg, evs, i, j)
    ensures Reach(cfg, evs, j + 1).b.mode == Open <==>
            evs[j].Finish? && evs[j].err.Some? && evs[j].err.value != Unavailable
    ensures Reach(cfg, evs, j + 1).b.mode == Closed <==>
            || evs[j].ForceReset?
            || (evs[j].Finish? && evs[j].err == None && Successes(evs, i, j + 1) == cfg.successThreshold)
  {
    EpisodeCountsSuccesses(cfg, evs, i, j);
    InvariantHolds(cfg, evs, j);
    assert Reach(cfg, evs, j).b.mode == HalfOpen;
  }

  // ---------------------------------------------------------------------------
  // The wedge: half-open, every slot used, nothing in flight

  predicate Wedged(cfg: Config, s: System) {
    s.b.mode == HalfOpen && s.b.halfOpen >= cfg.maxHalfOpen && s.inFlight == {}
  }

  lemma NextKeepsWedge(cfg: Config, s: System, e: Event)
    requires Wedged(cfg, s) && Feasible(s, e) && !e.ForceReset?
    ensures e.Admit? && !Admits(cfg, s.b, e.at)
    ensures Wedged(cfg, Next(cfg, s, e)) && Next(cfg, s, e).b == s.b
  {
  }

  lemma {:induction false} StaysWedged(cfg: Config, evs: seq<Event>, i: nat, j: nat)
    requires Run(cfg, evs) && i <= j <= |evs| && Wedged(cfg, Reach(cfg, evs, i))
    requires forall k :: i <= k < j ==> !evs[k].ForceReset?
    ensures Wedged(cfg, Reach(cfg, evs, j)) && Reach(cfg, evs, j).b == Reach(cfg, evs, i).b
    decreases j
  {
    if i < j {
      StaysWedged(cfg, evs, i, j - 1);
      assert StepFeasible(cfg, evs, j - 1);
      NextKeepsWedge(cfg, Reach(cfg, evs, j - 1), evs[j - 1]);
    }
  }

  /** Once wedged, every later call is rejected and the breaker does not change, until a forced reset. */
  lemma WedgedForever(cfg: Config, evs: seq<Event>, i: nat, j: nat)
    requires Run(cfg, evs) && i <= j < |evs| && Wedged(cfg, Reach(cfg, evs, i))
    requires forall k :: i <= k <= j ==> !evs[k].ForceReset?
    ensures evs[j].Admit? && !Admitted(cfg, evs, j)
    ensures Reach(cfg, evs, j + 1).b == Reach(cfg, evs, i).b
  {
    StaysWedged(cfg, evs, i, j);
    assert StepFeasible(cfg, evs, j);
    NextKeepsWedge(cfg, Reach(cfg, evs, j), evs[j]);
  }

  /** Event `m` is the end, with bare ErrUnavailable, of a probe of the half-open episode that is still
      running at `k`. */
  predicate EndedUnavailable(cfg: Config, evs: seq<Event>, m: nat, k: nat)
    requires m < k <= |evs|
  {
    && evs[m].Finish? && evs[m].err == Some(Unavailable) && evs[m].call in Reach(cfg, evs, m).probes
    && forall n :: m <= n <= k ==> Reach(cfg, evs, n).b.mode == HalfOpen
  }

  lemma {:induction false} VoidedProbe(cfg: Config, evs: seq<Event>, k: nat) returns (m: nat)
    requires k <= |evs| && Reach(cfg, evs, k).b.mode == HalfOpen && Reach(cfg, evs, k).voided > 0
    ensures m < k && EndedUnavailable(cfg, evs, m, k)
  {
    if Reach(cfg, evs, k - 1).b.mode == HalfOpen && Reach(cfg, evs, k - 1).voided > 0 {
      m := VoidedProbe(cfg, evs, k - 1);
    } else {
      m := k - 1;
    }
  }

  /** A wedge arises only if too few probes are allowed, or a probe of the episode ended
      with bare ErrUnavailable. */
  lemma WedgeHasACause(cfg: Config, evs: seq<Event>, k: nat)
    requires cfg.Normal() && Run(cfg, evs) && k <= |evs| && Wedged(cfg, Reach(cfg, evs, k))
    ensures cfg.maxHalfOpen < cfg.successThreshold || exists m :: 0 <= m < k && EndedUnavailable(cfg, evs, m, k)
  {
    InvariantHolds(cfg, evs, k);
    assert Reach(cfg, evs, k).probes == {};
    if cfg.maxHalfOpen >= cfg.successThreshold {
      var m := VoidedProbe(cfg, evs, k);
    }
  }

  predicate NeverBareUnavailable(evs: seq<Event>) {
    forall k :: 0 <= k < |evs| ==> !(evs[k].Finish? && evs[k].err == Some(Unavailable))
  }

  // Building runs one event at a time.

  lemma {:induction false} SamePrefix(cfg: Config, evs: seq<Event>, e: Event, k: nat)
    requires k <= |evs|
    ensures Reach(cfg, evs + [e], k) == Reach(cfg, evs, k)
  {
    if k > 0 {
      SamePrefix(cfg, evs, e, k - 1);
    }
  }

  lemma Extend(cfg: Config, evs: seq<Event>, e: Event)
    requires Run(cfg, evs) && Feasible(Final(cfg, evs), e)
    ensures Run(cfg, evs + [e]) && Final(cfg, evs + [e]) == Next(cfg, Final(cfg, evs), e)
  {
    var r := evs + [e];
    forall k | 0 <= k < |r|
      ensures StepFeasible(cfg, r, k)
    {
      SamePrefix(cfg, evs, e, k);
      assert k < |evs| ==> StepFeasible(cfg, evs, k);
    }
    SamePrefix(cfg, evs, e, |evs|);
    assert Reach(cfg, r, |r|) == Next(cfg, Reach(cfg, r, |evs|), r[|evs|]);
  }

  /** One call admitted and finished at the same instant. */
  lemma ExtendCall(cfg: Config, evs: seq<Event>, err: Option<Error>, at: int) returns (r: seq<Event>)
    requires Run(cfg, evs) && at >= Final(cfg, evs).clock && Final(cfg, evs).inFlight == {}
    requires Admits(cfg, Final(cfg, evs).b, at)
    requires NeverBareUnavailable(evs) && err != Some(Unavailable)
    ensures Run(cfg, r) && NeverBareUnavailable(r)
    ensures Final(cfg, r).b == After(cfg, Before(cfg, Final(cfg, evs).b, at).0, err, at)
    ensures Final(cfg, r).inFlight == {} && Final(cfg, r).clock == at
  {
    Extend(cfg, evs, Admit(0, at));
    r := evs + [Admit(0, at)];
    Extend(cfg, r, Finish(0, err, at));
    r := r + [Finish(0, err, at)];
  }

  /** Every configuration can be driven open, with nothing left in flight. */
  lemma DriveToOpen(cfg: Config) returns (evs: seq<Event>)
    requires cfg.Normal()
    ensures Run(cfg, evs) && NeverBareUnavailable(evs)
    ensures Final(cfg, evs).b.mode == Open && Final(cfg, evs).b.openSince == 0
    ensures Final(cfg, evs).inFlight == {} && Final(cfg, evs).clock == 0
  {
    evs := [];
    while Final(cfg, evs).b.mode == Closed
      invariant Run(cfg, evs) && NeverBareUnavailable(evs)
      invariant Final(cfg, evs).inFlight == {} && Final(cfg, evs).clock == 0
      invariant Final(cfg, evs).b.mode == Closed ==> Final(cfg, evs).b.failures < cfg.failureThreshold
      invariant Final(cfg, evs).b.mode == Open ==> Final(cfg, evs).b.openSince == 0
      invariant Final(cfg, evs).b.mode != HalfOpen
      decreases Final(cfg, evs).b.mode == Closed, cfg.failureThreshold - Final(cfg, evs).b.failures
    {
      evs := ExtendCall(cfg, evs, Some(NotFound), 0);
    }
  }

  /** With fewer probes than the success threshold, a run in which every probe succeeds wedges. */
  lemma DriveToWedge(cfg: Config) returns (evs: seq<Event>)
    requires cfg.Normal() && cfg.maxHalfOpen < cfg.successThreshold
    ensures Run(cfg, evs) && NeverBareUnavailable(evs) && Wedged(cfg, Final(cfg, evs))
  {
    evs := DriveToOpen(cfg);
    var at := cfg.openTimeout + 1;
    evs := ExtendCall(cfg, evs, None, at);
    while Final(cfg, evs).b.halfOpen < cfg.maxHalfOpen
      invariant Run(cfg, evs) && NeverBareUnavailable(evs)
      invariant Final(cfg, evs).inFlight == {} && Final(cfg, evs).clock == at
      invariant Final(cfg, evs).b.mode == HalfOpen
      invariant Final(cfg, evs).b.successes == Final(cfg, evs).b.halfOpen <= cfg.maxHalfOpen
      decreases cfg.maxHalfOpen - Final(cfg, evs).b.halfOpen
    {
      evs := ExtendCall(cfg, evs, None, at);
    }
  }

  /** Leaving bare ErrUnavailable aside, a configuration can wedge if and only if it allows
      fewer probes than the successes it asks for. */
  lemma WedgeIffTooFewProbes(cfg: Config)
    requires cfg.Normal()
    ensures (exists evs :: Run(cfg, evs) && NeverBareUnavailable(evs) && Wedged(cfg, Final(cfg, evs)))
            <==> cfg.maxHalfOpen < cfg.successThreshold
  {
    if cfg.maxHalfOpen < cfg.successThreshold {
      var evs := DriveToWedge(cfg);
    }
    forall evs | Run(cfg, evs) && NeverBareUnavailable(evs) && Wedged(cfg, Final(cfg, evs))
      ensures cfg.maxHalfOpen < cfg.successThreshold
    {
      WedgeHasACause(cfg, evs, |evs|);
    }
  }

  /** With bare ErrUnavailable every configuration can wedge, the defaults included. */
  lemma UnavailableProbesWedge(cfg: Config) returns (evs: seq<Event>)
    requires cfg.Normal()
    ensures Run(cfg, evs) && Wedged(cfg, Final(cfg, evs))
  {
    evs := DriveToOpen(cfg);
    var at := cfg.openTimeout + 1;
    Extend(cfg, evs, Admit(0, at));
    evs := evs + [Admit(0, at)];
    while true
      invariant Run(cfg, evs)
      invariant Final(cfg, evs).inFlight == {0} && Final(cfg, evs).clock == at
      invariant Final(cfg, evs).b.mode == HalfOpen && Final(cfg, evs).b.halfOpen <= cfg.maxHalfOpen
      decreases cfg.maxHalfOpen - Final(cfg, evs).b.halfOpen
    {
      Extend(cfg, evs, Finish(0, Some(Unavailable), at));
      evs := evs + [Finish(0, Some(Unavailable), at)];
      if Final(cfg, evs).b.halfOpen == cfg.maxHalfOpen {
        return;
      }
      Extend(cfg, evs, Admit(0, at));
      evs := evs + [Admit(0, at)];
    }
  }

  /** The shipped settings (configs/config.yaml) ask for 2 successes but allow 1 probe. */
  const SHIPPED := Config(5, 2, 30_000_000_000, 1)

  lemma ShippedSettingsCanWedge()
    ensures exists evs :: Run(SHIPPED, evs) && NeverBareUnavailable(evs) && Wedged(SHIPPED, Final(SHIPPED, evs))
  {
    WedgeIffTooFewProbes(SHIPPED);
  }
}
