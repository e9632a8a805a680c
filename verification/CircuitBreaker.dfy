/**
 The async circuit breaker of backend/app/core/circuit_breaker.py.

 A call takes the lock twice: once to be admitted and once to record how it ended.
 Any number of other steps can come in between, so the steps are modelled one by one:
 a run is an arbitrary sequence of admissions, completions, cancelled calls and resets.
 Every statement about runs therefore covers every interleaving.
 */
module CircuitBreaking {
  import opened Basics
  import opened Options

  /** Clock readings are whole microseconds, the resolution of `datetime`. */
  const TICKS_PER_SECOND := 1_000_000

  datatype Mode = Closed | Open | HalfOpen

  datatype Config = Config(
    failureThreshold: int,
    recoveryTimeoutSeconds: int,
    successThreshold: int,
    errorRateThreshold: real)

  const DEFAULT_CONFIG := Config(5, 60, 2, 0.5)

  /** The fields of a breaker at one moment. */
  datatype Snapshot = Snapshot(
    mode: Mode,
    failureCount: int,
    successCount: int,
    lastFailure: Option<int>,
    totalCalls: int,
    totalFailures: int,
    stateChangedAt: int)

  /** `Fail` has the two clock readings of a failure, for its own time and for a change of state.
      `Drop` is a call that was cancelled: it was admitted and records nothing. */
  datatype Event = Admit(now: int) | Succeed | Fail(now: int, changed: int) | Drop | Reset(now: int)

  // ---------------------------------------------------------------------------
  // The atomic steps
  // ---------------------------------------------------------------------------

  function Timeout(cfg: Config): int {
    cfg.recoveryTimeoutSeconds * TICKS_PER_SECOND
  }

  function Start(now: int): Snapshot {
    Snapshot(Closed, 0, 0, None, 0, 0, now)
  }

  predicate RecoveryDue(cfg: Config, s: Snapshot, now: int) {
    s.lastFailure.None? || now - s.lastFailure.value >= Timeout(cfg)
  }

  predicate Admits(cfg: Config, s: Snapshot, now: int) {
    s.mode.Open? ==> RecoveryDue(cfg, s, now)
  }

  function AfterAdmit(cfg: Config, s: Snapshot, now: int): Snapshot {
    if s.mode.Open? && RecoveryDue(cfg, s, now) then s.(mode := HalfOpen, successCount := 0) else s
  }

  function AfterSuccess(cfg: Config, s: Snapshot): Snapshot {
    var t := s.(failureCount := 0, totalCalls := s.totalCalls + 1);
    match s.mode
    case HalfOpen =>
      var u := t.(successCount := t.successCount + 1);
      if u.successCount >= cfg.successThreshold then u.(mode := Closed) else u
    case Closed => t.(totalCalls := t.totalCalls + 1)
    case Open => t
  }

  function ErrorRate(failures: int, calls: int): real {
    failures as real / (if calls > 1 then calls else 1) as real
  }

  function AfterFailure(cfg: Config, s: Snapshot, now: int, changed: int): Snapshot {
    var t := s.(failureCount := s.failureCount + 1, totalFailures := s.totalFailures + 1,
                lastFailure := Some(now), totalCalls := s.totalCalls + 1);
    match s.mode
    case HalfOpen => t.(mode := Open, stateChangedAt := changed)
    case Closed =>
      if t.failureCount >= cfg.failureThreshold
         || ErrorRate(t.totalFailures, t.totalCalls) >= cfg.errorRateThreshold
      then t.(mode := Open, stateChangedAt := changed)
      else t
    case Open => t
  }

  function AfterReset(s: Snapshot, now: int): Snapshot {
    Snapshot(Closed, 0, 0, s.lastFailure, 0, 0, now)
  }

  /** The breaker object. Each method is one critical section of the source. */
  class CircuitBreaker {
    const name: string
    const config: Config
    var mode: Mode
    var failureCount: int
    var successCount: int
    var lastFailure: Option<int>
    var totalCalls: int
    var totalFailures: int
    var stateChangedAt: int

    function Snap(): Snapshot
      reads this
    {
      Snapshot(mode, failureCount, successCount, lastFailure, totalCalls, totalFailures, stateChangedAt)
    }

    constructor (name: string, config: Option<Config>, now: int)
      ensures this.name == name
      ensures this.config == if config.Some? then config.value else DEFAULT_CONFIG
      ensures Snap() == Start(now)
    {
      this.name := name;
      this.config := if config.Some? then config.value else DEFAULT_CONFIG;
      mode := Closed;
      failureCount, successCount := 0, 0;
      lastFailure := None;
      totalCalls, totalFailures := 0, 0;
      stateChangedAt := now;
    }

    method Enter(now: int) returns (admitted: bool)
      modifies this
      ensures admitted == Admits(config, old(Snap()), now)
      ensures Snap() == AfterAdmit(config, old(Snap()), now)
    {
      if mode == Open {
        var due := lastFailure.None? || now - lastFailure.value >= Timeout(config);
        if due {
          mode := HalfOpen;
          successCount := 0;
        } else {
          return false;
        }
      }
      return true;
    }

    method OnSuccess()
      modifies this
      ensures Snap() == AfterSuccess(config, old(Snap()))
    {
      failureCount := 0;
      totalCalls := totalCalls + 1;
      if mode == HalfOpen {
        successCount := successCount + 1;
        if successCount >= config.successThreshold {
          mode := Closed;
        }
      } else if mode == Closed {
        totalCalls := totalCalls + 1;
      }
    }

    method OnFailure(now: int, changed: int)
      modifies this
      ensures Snap() == AfterFailure(config, old(Snap()), now, changed)
    {
      failureCount := failureCount + 1;
      totalFailures := totalFailures + 1;
      lastFailure := Some(now);
      totalCalls := totalCalls + 1;
      if mode == HalfOpen {
        mode := Open;
        stateChangedAt := changed;
      } else if mode == Closed {
        var errorRate := ErrorRate(totalFailures, totalCalls);
        if failureCount >= config.failureThreshold || errorRate >= config.errorRateThreshold {
          mode := Open;
          stateChangedAt := changed;
        }
      }
    }

    method ResetBreaker(now: int)
      modifies this
      ensures Snap() == AfterReset(old(Snap()), now)
    {
      mode := Closed;
      failureCount := 0;
      successCount := 0;
      totalCalls := 0;
      totalFailures := 0;
      stateChangedAt := now;
    }
  }

  /** The registry: one breaker per name, and the first configuration wins. */
  class Registry {
    var breakers: map<string, CircuitBreaker>

    ghost predicate Valid()
      reads this
    {
      forall n :: n in breakers ==> breakers[n].name == n
    }

    constructor ()
      ensures Valid() && breakers == map[]
    {
      breakers := map[];
    }

    method GetOrCreate(name: string, config: Option<Config>, now: int) returns (b: CircuitBreaker)
      requires Valid()
      modifies this
      ensures Valid() && name in breakers && b == breakers[name]
      ensures name in old(breakers) ==> breakers == old(breakers)
      ensures name !in old(breakers) ==>
                && breakers == old(breakers)[name := b]
                && fresh(b)
                && b.config == (if config.Some? then config.value else DEFAULT_CONFIG)
                && b.Snap() == Start(now)
    {
      if name !in breakers {
        var created := new CircuitBreaker(name, config, now);
        breakers := breakers[name := created];
      }
      b := breakers[name];
    }

    method ResetAll(now: int)
      requires Valid()
      modifies breakers.Values
      ensures Valid() && breakers == old(breakers)
      ensures forall n :: n in breakers ==> breakers[n].Snap() == AfterReset(old(breakers[n].Snap()), now)
    {
      var todo := breakers.Keys;
      while todo != {}
        invariant todo <= breakers.Keys && breakers == old(breakers)
        invariant forall n :: n in breakers.Keys - todo ==>
                    breakers[n].Snap() == AfterReset(old(breakers[n].Snap()), now)
        invariant forall n :: n in todo ==> breakers[n].Snap() == old(breakers[n].Snap())
        decreases todo
      {
        var n :| n in todo;
        assert forall m :: m in breakers && m != n ==> breakers[m] != breakers[n];
        breakers[n].ResetBreaker(now);
        todo := todo - {n};
      }
    }
  }

  // ---------------------------------------------------------------------------
  // Runs
  // ---------------------------------------------------------------------------

  function Apply(cfg: Config, s: Snapshot, e: Event): Snapshot {
    match e
    case Admit(now) => AfterAdmit(cfg, s, now)
    case Succeed => AfterSuccess(cfg, s)
    case Fail(now, changed) => AfterFailure(cfg, s, now, changed)
    case Drop => s
    case Reset(now) => AfterReset(s, now)
  }

  function Run(cfg: Config, s: Snapshot, evs: seq<Event>): Snapshot {
    if evs == [] then s
    else Apply(cfg, Run(cfg, s, evs[..|evs| - 1]), evs[|evs| - 1])
  }

  lemma RunStep(cfg: Config, s: Snapshot, evs: seq<Event>, k: nat)
    requires k < |evs|
    ensures Run(cfg, s, evs[..k + 1]) == Apply(cfg, Run(cfg, s, evs[..k]), evs[k])
  {
    assert evs[..k + 1][..k] == evs[..k];
  }

  lemma {:induction false} RunAppend(cfg: Config, s: Snapshot, a: seq<Event>, b: seq<Event>)
    ensures Run(cfg, s, a + b) == Run(cfg, Run(cfg, s, a), b)
  {
    if b == [] {
      assert a + b == a;
    } else {
      var b' := b[..|b| - 1];
      assert (a + b)[..|a + b| - 1] == a + b';
      RunAppend(cfg, s, a, b');
    }
  }

  // ---------------------------------------------------------------------------
  // What every step keeps
  // ---------------------------------------------------------------------------

  predicate Positive(cfg: Config) {
    cfg.failureThreshold >= 1 && cfg.successThreshold >= 1
  }

  ghost predicate Consistent(cfg: Config, s: Snapshot) {
    && (s.mode.Closed? ==> s.failureCount < cfg.failureThreshold)
    && (s.mode.HalfOpen? ==> s.successCount < cfg.successThreshold)
    && (!s.mode.Closed? ==> s.lastFailure.Some?)
    && 0 <= s.successCount
    && 0 <= s.failureCount <= s.totalFailures <= s.totalCalls
  }

  lemma {:induction false} EveryInterleavingStaysConsistent(cfg: Config, s: Snapshot, evs: seq<Event>)
    requires Positive(cfg) && Consistent(cfg, s)
    ensures Consistent(cfg, Run(cfg, s, evs))
  {
    if evs != [] {
      EveryInterleavingStaysConsistent(cfg, s, evs[..|evs| - 1]);
    }
  }

  function Burst(n: nat, now: int): (r: seq<Event>) {
    seq(n, _ => Fail(now, now))
  }

  lemma {:induction false} BurstTripsOrCounts(cfg: Config, t: int, n: nat, now: int)
    ensures var s := Run(cfg, Start(t), Burst(n, now));
            && (s.mode.Open? || (s.mode.Closed? && s.failureCount == n))
            && (n > 0 ==> s.lastFailure == Some(now))
  {
    if n > 0 {
      assert Burst(n, now)[..n - 1] == Burst(n - 1, now);
      BurstTripsOrCounts(cfg, t, n - 1, now);
    }
  }

  /** A failure threshold below one is missed from the start; a success threshold below one once a
      burst of failures has opened the breaker and a probe is let in. */
  lemma InconsistentRun(cfg: Config, t: int) returns (evs: seq<Event>)
    requires !Positive(cfg)
    ensures !Consistent(cfg, Run(cfg, Start(t), evs))
  {
    if cfg.failureThreshold < 1 {
      evs := [];
    } else {
      var fails := Burst(cfg.failureThreshold, t);
      evs := fails + [Admit(t + Timeout(cfg))];
      BurstTripsOrCounts(cfg, t, cfg.failureThreshold, t);
      assert evs[..|evs| - 1] == fails;
      assert Run(cfg, Start(t), evs) == AfterAdmit(cfg, Run(cfg, Start(t), fails), t + Timeout(cfg));
      if !Consistent(cfg, Run(cfg, Start(t), fails)) {
        evs := fails;
      }
    }
  }

  /** The invariant holds of every run from construction exactly for thresholds of at least one. */
  lemma ConsistentRunsExactlyForPositiveThresholds(cfg: Config, t: int)
    ensures Positive(cfg) <==> forall evs :: Consistent(cfg, Run(cfg, Start(t), evs))
  {
    if Positive(cfg) {
      forall evs ensures Consistent(cfg, Run(cfg, Start(t), evs)) {
        EveryInterleavingStaysConsistent(cfg, Start(t), evs);
      }
    } else {
      var evs := InconsistentRun(cfg, t);
      assert !Consistent(cfg, Run(cfg, Start(t), evs));
    }
  }

  // ---------------------------------------------------------------------------
  // The counters summarise the completion history
  // ---------------------------------------------------------------------------

  /** A finished call, with the state its completion landed in. */
  datatype Completion = Ok(at: Mode) | Err(at: Mode)

  /** The calls finished since construction or the last reset, oldest first. */
  function History(cfg: Config, s: Snapshot, evs: seq<Event>): seq<Completion> {
    if evs == [] then []
    else
      var init := evs[..|evs| - 1];
      var at := Run(cfg, s, init).mode;
      match evs[|evs| - 1]
      case Succeed => History(cfg, s, init) + [Ok(at)]
      case Fail(_, _) => History(cfg, s, init) + [Err(at)]
      case Reset(_) => []
      case _ => History(cfg, s, init)
  }

  /** `n` is the length of the run of failures that `h` ends with. */
  ghost predicate IsTrailingFailures(h: seq<Completion>, n: int) {
    && 0 <= n <= |h|
    && (forall i :: |h| - n <= i < |h| ==> h[i].Err?)
    && (n < |h| ==> h[|h| - 1 - n].Ok?)
  }

  ghost function Failures(h: seq<Completion>): nat {
    multiset(h)[Err(Closed)] + multiset(h)[Err(Open)] + multiset(h)[Err(HalfOpen)]
  }

  ghost function Successes(h: seq<Completion>): nat {
    multiset(h)[Ok(Closed)] + multiset(h)[Ok(Open)] + multiset(h)[Ok(HalfOpen)]
  }

  /** A breaker that has recorded nothing: just built, or just reset. */
  predicate Fresh(s: Snapshot) {
    s.mode.Closed? && s.failureCount == 0 && s.totalCalls == 0 && s.totalFailures == 0
  }

  lemma OneMoreCompletion(h: seq<Completion>, c: Completion)
    ensures Failures(h + [c]) == Failures(h) + (if c.Err? then 1 else 0)
    ensures Successes(h + [c]) == Successes(h) + (if c.Ok? then 1 else 0)
    ensures multiset(h + [c])[Ok(Closed)] == multiset(h)[Ok(Closed)] + (if c == Ok(Closed) then 1 else 0)
  {
    assert multiset(h + [c]) == multiset(h) + multiset{c};
    match c {
      case Ok(m) => match m { case Closed => case Open => case HalfOpen => }
      case Err(m) => match m { case Closed => case Open => case HalfOpen => }
    }
  }

  lemma OneMoreTrailing(h: seq<Completion>, c: Completion, n: int)
    requires IsTrailingFailures(h, n)
    ensures IsTrailingFailures(h + [c], if c.Err? then n + 1 else 0)
  {
  }

  ghost predicate Refines(r: Snapshot, h: seq<Completion>) {
    && IsTrailingFailures(h, r.failureCount)
    && r.totalFailures == Failures(h)
    && r.totalCalls == Failures(h) + Successes(h) + multiset(h)[Ok(Closed)]
  }

  lemma CompletionRefines(cfg: Config, r: Snapshot, h: seq<Completion>, e: Event)
    requires Refines(r, h) && (e.Succeed? || e.Fail?)
    ensures Refines(Apply(cfg, r, e), h + [if e.Succeed? then Ok(r.mode) else Err(r.mode)])
  {
    var c := if e.Succeed? then Ok(r.mode) else Err(r.mode);
    OneMoreCompletion(h, c);
    OneMoreTrailing(h, c, r.failureCount);
  }

  /** After any run, `failure_count` is the length of the failures the history ends with,
      `total_failures` is their number, and `total_calls` counts a success in CLOSED twice. */
  lemma {:induction false} CountersRefineHistory(cfg: Config, s: Snapshot, evs: seq<Event>)
    requires Fresh(s)
    ensures Refines(Run(cfg, s, evs), History(cfg, s, evs))
  {
    if evs != [] {
      var init := evs[..|evs| - 1];
      CountersRefineHistory(cfg, s, init);
      var e := evs[|evs| - 1];
      if e.Succeed? || e.Fail? {
        CompletionRefines(cfg, Run(cfg, s, init), History(cfg, s, init), e);
      }
    }
  }

  // ---------------------------------------------------------------------------
  // The first trip
  // ---------------------------------------------------------------------------

  /** The outcomes of a run without resets, `true` for a failure. Unlike `History`, it does not look at the breaker. */
  function Outcomes(evs: seq<Event>): seq<bool> {
    if evs == [] then []
    else
      var init := Outcomes(evs[..|evs| - 1]);
      match evs[|evs| - 1]
      case Succeed => init + [false]
      case Fail(_, _) => init + [true]
      case _ => init
  }

  function Count(o: seq<bool>, failed: bool): nat {
    if o == [] then 0
    else Count(o[..|o| - 1], failed) + if o[|o| - 1] == failed then 1 else 0
  }

  /** The number of failures at the end of `o`. */
  function Trailing(o: seq<bool>): nat {
    if o == [] || !o[|o| - 1] then 0 else 1 + Trailing(o[..|o| - 1])
  }

  /** What trips a breaker that never tripped: the last outcome is a failure that ends a long enough
      run of failures, or the failures reach the error rate with every success counted twice. */
  predicate Alarming(cfg: Config, o: seq<bool>) {
    && o != [] && o[|o| - 1]
    && (|| Trailing(o) >= cfg.failureThreshold
        || Count(o, true) as real >= cfg.errorRateThreshold * (Count(o, true) + 2 * Count(o, false)) as real)
  }

  lemma RateAsProduct(f: int, c: int, rate: real)
    requires c >= 1
    ensures ErrorRate(f, c) >= rate <==> f as real >= rate * c as real
  {
    var q := ErrorRate(f, c);
    assert q * c as real == f as real;
    if q >= rate {
      assert (q - rate) * c as real >= 0.0;
    } else {
      assert (rate - q) * c as real > 0.0;
    }
  }

  ghost predicate NoReset(evs: seq<Event>) {
    forall i :: 0 <= i < |evs| ==> !evs[i].Reset?
  }

  /** The breaker was closed before every event of the run and is closed after it. */
  ghost predicate NeverTripped(cfg: Config, s: Snapshot, evs: seq<Event>) {
    forall k :: 0 <= k <= |evs| ==> Run(cfg, s, evs[..k]).mode.Closed?
  }

  lemma OneMoreOutcome(o: seq<bool>, b: bool)
    ensures Count(o + [b], true) == Count(o, true) + (if b then 1 else 0)
    ensures Count(o + [b], false) == Count(o, false) + (if b then 0 else 1)
    ensures Trailing(o + [b]) == if b then Trailing(o) + 1 else 0
  {
    assert (o + [b])[..|o|] == o;
  }

  /** The counters hold what the outcomes say; true as long as every completion landed in CLOSED. */
  ghost predicate Tallies(r: Snapshot, o: seq<bool>) {
    && r.mode.Closed?
    && r.failureCount == Trailing(o)
    && r.totalFailures == Count(o, true)
    && r.totalCalls == Count(o, true) + 2 * Count(o, false)
  }

  /** One step from a closed breaker trips it exactly when the step is an alarming failure. */
  lemma TallyStep(cfg: Config, r: Snapshot, o: seq<bool>, e: Event)
    requires Tallies(r, o) && !e.Reset?
    ensures var o' := if e.Succeed? then o + [false] else if e.Fail? then o + [true] else o;
            var r' := Apply(cfg, r, e);
            && (r'.mode.Closed? <==> !(e.Fail? && Alarming(cfg, o')))
            && (r'.mode.Closed? ==> Tallies(r', o'))
            && (!r'.mode.Closed? ==> r'.mode.Open?)
  {
    if e.Fail? {
      OneMoreOutcome(o, true);
      RateAsProduct(Count(o, true) + 1, Count(o, true) + 1 + 2 * Count(o, false), cfg.errorRateThreshold);
    } else if e.Succeed? {
      OneMoreOutcome(o, false);
    }
  }

  /** While the breaker has not tripped, its counters are the tallies of the outcomes. */
  lemma {:induction false} UntrippedTallies(cfg: Config, s: Snapshot, evs: seq<Event>)
    requires Fresh(s) && NoReset(evs) && NeverTripped(cfg, s, evs)
    ensures Tallies(Run(cfg, s, evs), Outcomes(evs))
  {
    if evs != [] {
      var n := |evs| - 1;
      NeverTrippedPrefix(cfg, s, evs, n);
      UntrippedTallies(cfg, s, evs[..n]);
      TallyStep(cfg, Run(cfg, s, evs[..n]), Outcomes(evs[..n]), evs[n]);
      assert evs[..n + 1] == evs;
    }
  }

  lemma NeverTrippedPrefix(cfg: Config, s: Snapshot, evs: seq<Event>, n: nat)
    requires n <= |evs| && NeverTripped(cfg, s, evs)
    ensures NeverTripped(cfg, s, evs[..n])
  {
    forall k | 0 <= k <= n ensures Run(cfg, s, evs[..n][..k]).mode.Closed? {
      assert evs[..n][..k] == evs[..k];
    }
  }

  /** A breaker with no history leaves CLOSED with precisely the first failure that is alarming. */
  lemma TripsAtFirstAlarm(cfg: Config, s: Snapshot, evs: seq<Event>, k: nat)
    requires Fresh(s) && NoReset(evs) && k < |evs|
    requires NeverTripped(cfg, s, evs[..k])
    ensures Run(cfg, s, evs[..k + 1]).mode.Open? <==> evs[k].Fail? && Alarming(cfg, Outcomes(evs[..k + 1]))
    ensures !Run(cfg, s, evs[..k + 1]).mode.Open? ==> Run(cfg, s, evs[..k + 1]).mode.Closed?
  {
    UntrippedTallies(cfg, s, evs[..k]);
    RunStep(cfg, s, evs, k);
    TallyStep(cfg, Run(cfg, s, evs[..k]), Outcomes(evs[..k]), evs[k]);
    assert evs[..k + 1][..k] == evs[..k];
  }

  /** Event `k` is a failure that makes the outcomes so far alarming. */
  predicate AlarmAt(cfg: Config, evs: seq<Event>, k: int) {
    0 <= k < |evs| && evs[k].Fail? && Alarming(cfg, Outcomes(evs[..k + 1]))
  }

  /** Over whole runs: the breaker has tripped exactly when some failure was alarming. */
  lemma {:induction false} TripsIffAlarmed(cfg: Config, s: Snapshot, evs: seq<Event>)
    requires Fresh(s) && NoReset(evs)
    ensures NeverTripped(cfg, s, evs) <==> forall k :: !AlarmAt(cfg, evs, k)
  {
    if evs == [] {
      assert forall k :: 0 <= k <= |evs| ==> evs[..k] == [];
    } else {
      var n := |evs| - 1;
      var init := evs[..n];
      assert evs[..n + 1] == evs;
      TripsIffAlarmed(cfg, s, init);
      forall k | 0 <= k < n ensures AlarmAt(cfg, init, k) <==> AlarmAt(cfg, evs, k) {
        assert init[..k + 1] == evs[..k + 1];
      }
      forall k | 0 <= k <= n ensures init[..k] == evs[..k] {}
      if NeverTripped(cfg, s, init) {
        TripsAtFirstAlarm(cfg, s, evs, n);
        assert AlarmAt(cfg, evs, n) <==> !Run(cfg, s, evs).mode.Closed?;
        if Run(cfg, s, evs).mode.Closed? {
          forall k | 0 <= k <= |evs| ensures Run(cfg, s, evs[..k]).mode.Closed? {
            assert k <= n ==> evs[..k] == init[..k];
          }
        } else {
          assert !Run(cfg, s, evs[..n + 1]).mode.Closed?;
        }
      } else {
        var k :| 0 <= k <= n && !Run(cfg, s, init[..k]).mode.Closed?;
        assert !Run(cfg, s, evs[..k]).mode.Closed?;
        var j :| AlarmAt(cfg, init, j);
        assert AlarmAt(cfg, evs, j);
      }
    }
  }

  ghost predicate BelowTheRate(cfg: Config, r: Snapshot) {
    || r.totalFailures == 0
    || (r.totalFailures as real < cfg.errorRateThreshold * r.totalCalls as real
        && r.failureCount < cfg.failureThreshold)
  }

  lemma StayingClosedIsBelowTheRate(cfg: Config, r: Snapshot, o: seq<bool>, e: Event)
    requires Tallies(r, o) && BelowTheRate(cfg, r) && !e.Reset? && Apply(cfg, r, e).mode.Closed?
    ensures BelowTheRate(cfg, Apply(cfg, r, e))
  {
    if e.Fail? {
      RateAsProduct(r.totalFailures + 1, r.totalCalls + 1, cfg.errorRateThreshold);
    } else if e.Succeed? && r.totalFailures > 0 {
      RateGrows(cfg.errorRateThreshold, r.totalFailures, r.totalCalls);
    }
  }

  /** Before the first trip nothing has failed yet, or the failures are below the error rate. */
  lemma {:induction false} UntrippedIsBelowTheRate(cfg: Config, s: Snapshot, evs: seq<Event>)
    requires Fresh(s) && NoReset(evs) && NeverTripped(cfg, s, evs)
    ensures BelowTheRate(cfg, Run(cfg, s, evs))
  {
    if evs != [] {
      var n := |evs| - 1;
      NeverTrippedPrefix(cfg, s, evs, n);
      UntrippedIsBelowTheRate(cfg, s, evs[..n]);
      UntrippedTallies(cfg, s, evs[..n]);
      assert evs[..n + 1] == evs && Run(cfg, s, evs).mode.Closed?;
      StayingClosedIsBelowTheRate(cfg, Run(cfg, s, evs[..n]), Outcomes(evs[..n]), evs[n]);
    }
  }

  lemma RateGrows(rate: real, f: int, c: int)
    requires 0 < f && 0 <= c && f as real < rate * c as real
    ensures f as real < rate * (c + 2) as real
  {
    assert rate * (c + 2) as real == rate * c as real + 2.0 * rate;
  }

  /** `failure_threshold` is documented as the number of failures that opens the breaker. From a
      breaker with no history the first failure opens it unless both thresholds are above one. */
  lemma FirstFailureOpens(cfg: Config, s: Snapshot, now: int, changed: int)
    requires Fresh(s)
    ensures AfterFailure(cfg, s, now, changed).mode.Open? <==> cfg.failureThreshold <= 1 || cfg.errorRateThreshold <= 1.0
  {
  }

  /** Event `k` is a failure that ends a run of `failureThreshold` failures: what is documented to open the breaker. */
  predicate RunAt(cfg: Config, evs: seq<Event>, k: int) {
    0 <= k < |evs| && evs[k].Fail? && Trailing(Outcomes(evs[..k + 1])) >= cfg.failureThreshold
  }

  /** In this run the breaker leaves CLOSED exactly when it is documented to. */
  ghost predicate OpensAsDocumented(cfg: Config, s: Snapshot, evs: seq<Event>) {
    NeverTripped(cfg, s, evs) <==> forall k :: !RunAt(cfg, evs, k)
  }

  /** After a failure, the rate alone is reached only where it is at most one. */
  lemma RateAboveOneIsIdle(cfg: Config, evs: seq<Event>, k: int)
    requires cfg.failureThreshold <= 1 || cfg.errorRateThreshold > 1.0
    ensures AlarmAt(cfg, evs, k) <==> RunAt(cfg, evs, k)
  {
    if 0 <= k < |evs| && evs[k].Fail? {
      var o, before := Outcomes(evs[..k + 1]), Outcomes(evs[..k]);
      assert evs[..k + 1][..k] == evs[..k];
      assert o == before + [true];
      OneMoreOutcome(before, true);
      RateOfAFailure(cfg.errorRateThreshold, Count(o, true), Count(o, false));
    }
  }

  lemma RateOfAFailure(rate: real, f: nat, c: nat)
    requires f >= 1
    ensures rate > 1.0 ==> f as real < rate * (f + 2 * c) as real
  {
    if rate > 1.0 {
      assert (rate - 1.0) * (f + 2 * c) as real > 0.0;
    }
  }

  lemma OneFailure(cfg: Config, s: Snapshot, now: int)
    requires Fresh(s) && cfg.failureThreshold > 1 && cfg.errorRateThreshold <= 1.0
    ensures !OpensAsDocumented(cfg, s, [Fail(now, now)])
  {
    var evs := [Fail(now, now)];
    assert evs[..1] == evs && evs[..0] == [];
    FirstFailureOpens(cfg, s, now, now);
    assert !Run(cfg, s, evs[..1]).mode.Closed?;
    assert Outcomes(evs) == [true];
    assert Trailing(Outcomes(evs[..1])) == 1;
  }

  /** Over whole runs: the failure threshold is the number of failures in a row that opens a breaker with no history,
      in every run, exactly when it is at most one or the error rate threshold is above one, out of reach. */
  lemma FailureThresholdDecidesExactlyWhen(cfg: Config, s: Snapshot)
    requires Fresh(s)
    ensures (forall evs :: NoReset(evs) ==> OpensAsDocumented(cfg, s, evs)) <==>
            cfg.failureThreshold <= 1 || cfg.errorRateThreshold > 1.0
  {
    if cfg.failureThreshold <= 1 || cfg.errorRateThreshold > 1.0 {
      forall evs | NoReset(evs) ensures OpensAsDocumented(cfg, s, evs) {
        hide NeverTripped, AlarmAt, RunAt;
        TripsIffAlarmed(cfg, s, evs);
        forall k ensures AlarmAt(cfg, evs, k) <==> RunAt(cfg, evs, k) {
          RateAboveOneIsIdle(cfg, evs, k);
        }
      }
    } else {
      OneFailure(cfg, s, 0);
      assert NoReset([Fail(0, 0)]);
      hide OpensAsDocumented;
    }
  }

  // ---------------------------------------------------------------------------
  // Reset
  // ---------------------------------------------------------------------------

  /** The same but for a failure time that nothing looks at: it counts only while OPEN. */
  ghost predicate SameButOldFailure(a: Snapshot, b: Snapshot) {
    a.(lastFailure := b.lastFailure) == b && (a.mode.Open? ==> a.lastFailure == b.lastFailure)
  }

  lemma StepForgetsOldFailure(cfg: Config, a: Snapshot, b: Snapshot, e: Event)
    requires SameButOldFailure(a, b)
    ensures SameButOldFailure(Apply(cfg, a, e), Apply(cfg, b, e))
    ensures e.Admit? ==> Admits(cfg, a, e.now) == Admits(cfg, b, e.now)
  {
  }

  /** `reset` keeps the last failure time, but a reset breaker cannot be told from a new one: along every
      run both have the same state and counters and admit the same calls. */
  lemma {:induction false} ResetIsAsGoodAsNew(cfg: Config, s: Snapshot, t: int, evs: seq<Event>)
    ensures SameButOldFailure(Run(cfg, AfterReset(s, t), evs), Run(cfg, Start(t), evs))
    ensures forall i :: 0 <= i < |evs| && evs[i].Admit? ==>
              (Admits(cfg, Run(cfg, AfterReset(s, t), evs[..i]), evs[i].now) <==>
               Admits(cfg, Run(cfg, Start(t), evs[..i]), evs[i].now))
  {
    if evs != [] {
      var n := |evs| - 1;
      var init := evs[..n];
      ResetIsAsGoodAsNew(cfg, s, t, init);
      StepForgetsOldFailure(cfg, Run(cfg, AfterReset(s, t), init), Run(cfg, Start(t), init), evs[n]);
      hide SameButOldFailure, Admits, AfterReset, Start;
      forall i | 0 <= i < |evs| && evs[i].Admit?
        ensures Admits(cfg, Run(cfg, AfterReset(s, t), evs[..i]), evs[i].now) <==>
                Admits(cfg, Run(cfg, Start(t), evs[..i]), evs[i].now)
      {
        if i < n {
          assert init[..i] == evs[..i] && init[i] == evs[i];
        }
      }
    }
  }

  /** Event `k` resets the breaker or moves it to OPEN. */
  predicate OpensOrResets(cfg: Config, s: Snapshot, evs: seq<Event>, k: int)
    requires 0 <= k < |evs|
  {
    evs[k].Reset? || (Run(cfg, s, evs[..k + 1]).mode.Open? && !Run(cfg, s, evs[..k]).mode.Open?)
  }

  /** `state_changed_at` is the time of the last opening or reset: entering HALF_OPEN and closing again
      do not count as changes of state. */
  lemma {:induction false} StateChangeTimeIsOfTheLastOpening(cfg: Config, s: Snapshot, evs: seq<Event>, k: nat)
    requires k < |evs| && OpensOrResets(cfg, s, evs, k)
    requires forall j :: k < j < |evs| ==> !OpensOrResets(cfg, s, evs, j)
    ensures evs[k].Fail? || evs[k].Reset?
    ensures Run(cfg, s, evs).stateChangedAt == if evs[k].Fail? then evs[k].changed else evs[k].now
  {
    var n := |evs| - 1;
    assert evs[..n + 1] == evs;
    if k == n {
      RunStep(cfg, s, evs, n);
    } else {
      var init := evs[..n];
      forall j | 0 <= j < n ensures OpensOrResets(cfg, s, init, j) <==> OpensOrResets(cfg, s, evs, j) {
        assert init[..j] == evs[..j] && init[..j + 1] == evs[..j + 1];
      }
      StateChangeTimeIsOfTheLastOpening(cfg, s, init, k);
      assert !OpensOrResets(cfg, s, evs, n);
      RunStep(cfg, s, evs, n);
    }
  }

  // ---------------------------------------------------------------------------
  // Entering HALF_OPEN
  // ---------------------------------------------------------------------------

  predicate Timed(e: Event) {
    e.Admit? || e.Fail? || e.Reset?
  }

  /** The clock never goes back during the run. */
  ghost predicate Clocked(evs: seq<Event>) {
    forall i, j :: 0 <= i < j < |evs| && Timed(evs[i]) && Timed(evs[j]) ==> evs[i].now <= evs[j].now
  }

  /** Event `i` is the admission that moves the breaker from OPEN to HALF_OPEN. */
  predicate IsProbe(cfg: Config, s: Snapshot, evs: seq<Event>, i: int) {
    && 0 <= i < |evs| && evs[i].Admit?
    && Run(cfg, s, evs[..i]).mode.Open?
    && Run(cfg, s, evs[..i + 1]).mode.HalfOpen?
  }

  /** If the breaker is open again after a probe, a failure was recorded since. */
  lemma {:induction false} ReopenedAfterProbe(cfg: Config, s: Snapshot, evs: seq<Event>, i: nat, k: nat)
    requires Clocked(evs) && IsProbe(cfg, s, evs, i) && i < k <= |evs|
    ensures var r := Run(cfg, s, evs[..k]);
            r.mode.Open? ==> r.lastFailure.Some? && r.lastFailure.value >= evs[i].now
    decreases k
  {
    if k > i + 1 {
      ReopenedAfterProbe(cfg, s, evs, i, k - 1);
      RunStep(cfg, s, evs, k - 1);
      assert Timed(evs[i]);
      assert evs[k - 1].Fail? ==> Timed(evs[k - 1]);
    }
  }

  lemma ProbesAreSpaced(cfg: Config, s: Snapshot, evs: seq<Event>, i: nat, j: nat)
    requires Clocked(evs) && i < j && IsProbe(cfg, s, evs, i) && IsProbe(cfg, s, evs, j)
    ensures evs[j].now - evs[i].now >= Timeout(cfg)
  {
    ReopenedAfterProbe(cfg, s, evs, i, j);
    RunStep(cfg, s, evs, j);
  }

  /** The times of the probes among the first `n` events. */
  function ProbeTimes(cfg: Config, s: Snapshot, evs: seq<Event>, n: nat): seq<int>
    requires n <= |evs|
  {
    if n == 0 then []
    else if IsProbe(cfg, s, evs, n - 1) then ProbeTimes(cfg, s, evs, n - 1) + [evs[n - 1].now]
    else ProbeTimes(cfg, s, evs, n - 1)
  }

  ghost predicate Spaced(ts: seq<int>, gap: int) {
    forall i, j :: 0 <= i < j < |ts| ==> ts[j] - ts[i] >= gap
  }

  lemma {:induction false} ProbeTimesAreSpaced(cfg: Config, s: Snapshot, evs: seq<Event>, n: nat)
    requires Clocked(evs) && n <= |evs|
    ensures Spaced(ProbeTimes(cfg, s, evs, n), Timeout(cfg))
    ensures forall t :: t in ProbeTimes(cfg, s, evs, n) ==> exists i :: i < n && IsProbe(cfg, s, evs, i) && evs[i].now == t
  {
    if n > 0 {
      ProbeTimesAreSpaced(cfg, s, evs, n - 1);
      if IsProbe(cfg, s, evs, n - 1) {
        var ts := ProbeTimes(cfg, s, evs, n - 1);
        forall p | 0 <= p < |ts| ensures evs[n - 1].now - ts[p] >= Timeout(cfg) {
          assert ts[p] in ts;
          var i :| i < n - 1 && IsProbe(cfg, s, evs, i) && evs[i].now == ts[p];
          ProbesAreSpaced(cfg, s, evs, i, n - 1);
        }
      }
    }
  }

  /** How many of the times fall in the closed interval [from, to]. */
  function CountWithin(ts: seq<int>, from: int, to: int): nat {
    if ts == [] then 0
    else CountWithin(ts[..|ts| - 1], from, to) + if from <= ts[|ts| - 1] <= to then 1 else 0
  }

  lemma SpacedBefore(ts: seq<int>, gap: int)
    requires Spaced(ts, gap) && ts != []
    ensures Spaced(ts[..|ts| - 1], gap)
    ensures forall i :: 0 <= i < |ts| - 1 ==> ts[..|ts| - 1][i] == ts[i] && ts[|ts| - 1] - ts[i] >= gap
  {
  }

  lemma OneMoreGap(c: int, gap: int, step: int, span: int)
    requires (c - 1) * gap <= span && gap <= step
    ensures c * gap <= span + step
  {
    assert c * gap == (c - 1) * gap + gap;
  }

  lemma {:induction false} SpacedCount(ts: seq<int>, gap: int, from: int, to: int) returns (i: nat)
    requires Spaced(ts, gap) && CountWithin(ts, from, to) > 0
    ensures i < |ts| && from + (CountWithin(ts, from, to) - 1) * gap <= ts[i] <= to
  {
    assert ts != [];
    var init := ts[..|ts| - 1];
    var c := CountWithin(init, from, to);
    assert CountWithin(ts, from, to) == c + if from <= ts[|ts| - 1] <= to then 1 else 0;
    SpacedBefore(ts, gap);
    hide CountWithin, Spaced;
    if from <= ts[|ts| - 1] <= to {
      i := |ts| - 1;
      if c > 0 {
        var h := SpacedCount(init, gap, from, to);
        OneMoreGap(c, gap, ts[i] - ts[h], ts[h] - from);
      }
    } else {
      i := SpacedCount(init, gap, from, to);
    }
  }

  /** In any span of time the breaker probes the service at most span / timeout + 1 times. */
  lemma ProbeRateIsBounded(cfg: Config, s: Snapshot, evs: seq<Event>, from: int, to: int)
    requires Clocked(evs) && from <= to && cfg.recoveryTimeoutSeconds > 0
    ensures CountWithin(ProbeTimes(cfg, s, evs, |evs|), from, to) <= (to - from) / Timeout(cfg) + 1
  {
    var ts := ProbeTimes(cfg, s, evs, |evs|);
    ProbeTimesAreSpaced(cfg, s, evs, |evs|);
    var c := CountWithin(ts, from, to);
    if c > 0 {
      var i := SpacedCount(ts, Timeout(cfg), from, to);
      QuotientBound(c - 1, to - from, Timeout(cfg));
    }
  }

  lemma QuotientBound(k: int, span: int, t: int)
    requires t > 0 && k * t <= span
    ensures k <= span / t
  {
    var d := k - span / t;
    assert d * t == k * t - (span / t) * t;
    if d >= 1 {
      MultipleIsNotSmaller(t, d);
    }
  }

  /** An open breaker sheds every call until the timeout after its last failure has passed,
      however many late completions, cancellations and rejected calls come in meanwhile. */
  lemma {:induction false} OpenShedsLoad(cfg: Config, s: Snapshot, evs: seq<Event>)
    requires s.mode.Open? && s.lastFailure.Some? && NoReset(evs)
    requires forall i :: 0 <= i < |evs| && Timed(evs[i]) ==>
               s.lastFailure.value <= evs[i].now < s.lastFailure.value + Timeout(cfg)
    ensures var r := Run(cfg, s, evs);
            r.mode.Open? && r.lastFailure.Some? && s.lastFailure.value <= r.lastFailure.value
    ensures forall i :: 0 <= i < |evs| && evs[i].Admit? ==> !Admits(cfg, Run(cfg, s, evs[..i]), evs[i].now)
  {
    if evs != [] {
      var n := |evs| - 1;
      var init := evs[..n];
      OpenShedsLoad(cfg, s, init);
      assert !evs[n].Drop? && !evs[n].Succeed? ==> Timed(evs[n]);
      forall i | 0 <= i < |evs| && evs[i].Admit?
        ensures !Admits(cfg, Run(cfg, s, evs[..i]), evs[i].now)
      {
        if i < n {
          assert init[..i] == evs[..i] && init[i] == evs[i];
        }
      }
    }
  }

  /** One call after another, each admitted and then successful. */
  function Calls(times: seq<int>): seq<Event> {
    if times == [] then []
    else Calls(times[..|times| - 1]) + [Admit(times[|times| - 1]), Succeed]
  }

  /** With no other call in flight, an open breaker whose timeout has passed closes at exactly the
      `success_threshold`-th successful call in a row. */
  lemma {:induction false} RecoversAtTheThreshold(cfg: Config, s: Snapshot, times: seq<int>)
    requires Positive(cfg) && s.mode.Open? && |times| > 0 && RecoveryDue(cfg, s, times[0])
    ensures var r := Run(cfg, s, Calls(times));
            && r.failureCount == 0 && r.totalFailures == s.totalFailures
            && if |times| < cfg.successThreshold
               then r.mode.HalfOpen? && r.successCount == |times|
               else r.mode.Closed?
  {
    var n := |times| - 1;
    var init := Calls(times[..n]);
    RunAppend(cfg, s, init, [Admit(times[n]), Succeed]);
    TwoSteps(cfg, Run(cfg, s, init), Admit(times[n]), Succeed);
    if n > 0 {
      assert times[..n][0] == times[0];
      RecoversAtTheThreshold(cfg, s, times[..n]);
    }
  }

  lemma TwoSteps(cfg: Config, s: Snapshot, a: Event, b: Event)
    ensures Run(cfg, s, [a, b]) == Apply(cfg, Apply(cfg, s, a), b)
  {
    assert [a, b][..1] == [a] && [a][..0] == [];
    assert Run(cfg, s, [a]) == Apply(cfg, s, a);
  }
}
