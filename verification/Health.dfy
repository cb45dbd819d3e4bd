/** Path health with hysteresis: five states, two counters, and how often availability can
    change over a whole run of probes. */
module Health {
  import opened Model
  import opened Net

  /** Thresholds; the failback cooldown of the source is never read and is left out. */
  datatype HealthConfig = HealthConfig(failureThreshold: nat, recoveryThreshold: nat)

  /** The value of a `PathHealth` record. */
  datatype HealthView = HealthView(
    state: HealthState,
    linkUp: bool,
    gatewayReachable: bool,
    targetReachable: bool,
    failures: nat,
    successes: nat,
    lastCheck: nat)

  const DEFAULT_HEALTH := HealthView(Unknown, false, false, false, 0, 0, 0)

  datatype Probe = Probe(ok: bool, now: nat)

  predicate IsAvailable(h: HealthView) {
    h.state == Healthy || h.state == Recovering
  }

  function OnSuccess(cfg: HealthConfig, h: HealthView, now: nat): HealthView {
    var n := h.successes + 1;
    var next := match h.state
      case Unknown => Healthy
      case Down => if n >= cfg.recoveryThreshold then Recovering else Down
      case Recovering => if n > cfg.recoveryThreshold then Healthy else Recovering
      case Degraded => Healthy
      case Healthy => Healthy;
    h.(state := next, linkUp := true, failures := 0, successes := n, lastCheck := now)
  }

  function OnFailure(cfg: HealthConfig, h: HealthView, now: nat): HealthView {
    var n := h.failures + 1;
    var next := match h.state
      case Unknown => Down
      case Healthy => if n >= cfg.failureThreshold then Degraded else Healthy
      case Degraded => Down
      case Recovering => Down
      case Down => Down;
    h.(state := next, failures := n, successes := 0, lastCheck := now)
  }

  function OnProbe(cfg: HealthConfig, h: HealthView, p: Probe): HealthView {
    if p.ok then OnSuccess(cfg, h, p.now) else OnFailure(cfg, h, p.now)
  }

  /** The record the daemon keeps per interface, updated in place. */
  class PathHealth {
    var state: HealthState
    var linkUp: bool
    var gatewayReachable: bool
    var targetReachable: bool
    var consecutiveFailures: nat
    var consecutiveSuccesses: nat
    var lastCheck: nat

    function View(): HealthView
      reads this
    {
      HealthView(state, linkUp, gatewayReachable, targetReachable,
                 consecutiveFailures, consecutiveSuccesses, lastCheck)
    }

    constructor (v: HealthView)
      ensures View() == v
    {
      state := v.state;
      linkUp, gatewayReachable, targetReachable := v.linkUp, v.gatewayReachable, v.targetReachable;
      consecutiveFailures, consecutiveSuccesses := v.failures, v.successes;
      lastCheck := v.lastCheck;
    }

    method RecordSuccess(cfg: HealthConfig, now: nat)
      modifies this
      ensures View() == OnSuccess(cfg, old(View()), now)
    {
      consecutiveFailures := 0;
      consecutiveSuccesses := consecutiveSuccesses + 1;
      lastCheck := now;
      linkUp := true;
      match state {
        case Unknown => state := Healthy;
        case Down =>
          if consecutiveSuccesses >= cfg.recoveryThreshold { state := Recovering; }
        case Recovering =>
          if consecutiveSuccesses > cfg.recoveryThreshold { state := Healthy; }
        case Degraded => state := Healthy;
        case Healthy =>
      }
    }

    method RecordFailure(cfg: HealthConfig, now: nat)
      modifies this
      ensures View() == OnFailure(cfg, old(View()), now)
    {
      consecutiveSuccesses := 0;
      consecutiveFailures := consecutiveFailures + 1;
      lastCheck := now;
      match state {
        case Unknown => state := Down;
        case Healthy =>
          if consecutiveFailures >= cfg.failureThreshold { state := Degraded; }
        case Degraded => state := Down;
        case Recovering => state := Down;
        case Down =>
      }
    }
  }

  // ---------------------------------------------------------------- runs

  function Run(cfg: HealthConfig, h: HealthView, ps: seq<Probe>): HealthView {
    if ps == [] then h else OnProbe(cfg, Run(cfg, h, ps[..|ps| - 1]), ps[|ps| - 1])
  }

  /** How often availability changes during the run; each change triggers a reconciliation. */
  function Flaps(cfg: HealthConfig, h: HealthView, ps: seq<Probe>): nat {
    if ps == [] then 0 else
      var before := Run(cfg, h, ps[..|ps| - 1]);
      var after := Run(cfg, h, ps);
      Flaps(cfg, h, ps[..|ps| - 1]) + if IsAvailable(before) != IsAvailable(after) then 1 else 0
  }

  function Max(a: nat, b: nat): nat { if a >= b then a else b }
  function Min(a: nat, b: nat): nat { if a <= b then a else b }

  /** The weaker of the two hysteresis margins; a threshold of zero acts as one. */
  function Margin(cfg: HealthConfig): (m: nat)
    ensures m >= 1
  {
    Min(Max(cfg.failureThreshold, 1), Max(cfg.recoveryThreshold, 1))
  }

  function CeilDiv(n: nat, d: nat): nat
    requires d > 0
  {
    (n + d - 1) / d
  }

  /** Probes that must have passed since availability last rose. */
  function SinceRise(cfg: HealthConfig, h: HealthView): nat {
    match h.state
    case Healthy => h.failures
    case Degraded => Margin(cfg)
    case Down => 1 + h.successes
    case _ => 0
  }

  function Rises(flaps: nat): nat { (flaps + 1) / 2 }

  /** Probes that `k` full cycles of availability cost at least. */
  function Cost(k: nat, m: nat): nat {
    if k == 0 then 0 else Cost(k - 1, m) + m + 1
  }

  /** The k-th rise of availability needs more than Cost(k - 1) probes. */
  ghost predicate RisesPaidFor(cfg: HealthConfig, h: HealthView, flaps: nat, probes: nat) {
    && (IsAvailable(h) <==> flaps % 2 == 1)
    && (h.state == Unknown ==> probes == 0 && h.failures == 0 && h.successes == 0)
    && (flaps == 0 ==> h.state == Unknown || h.state == Down)
    && (flaps > 0 ==> h.state != Unknown)
    && (flaps > 0 ==> Cost(Rises(flaps) - 1, Margin(cfg)) + 1 + SinceRise(cfg, h) <= probes)
  }

  lemma RisesNext(flaps: nat)
    ensures flaps % 2 == 0 ==> Rises(flaps + 1) == Rises(flaps) + 1 && (flaps + 1) % 2 == 1
    ensures flaps % 2 == 1 ==> Rises(flaps + 1) == Rises(flaps) && (flaps + 1) % 2 == 0
    ensures flaps > 0 <==> Rises(flaps) > 0
  {
  }

  lemma RisesPaidForStep(cfg: HealthConfig, h: HealthView, flaps: nat, probes: nat, p: Probe)
    requires RisesPaidFor(cfg, h, flaps, probes)
    ensures var h' := OnProbe(cfg, h, p);
            var flaps' := flaps + if IsAvailable(h) != IsAvailable(h') then 1 else 0;
            RisesPaidFor(cfg, h', flaps', probes + 1)
  {
    RisesNext(flaps);
    var paid := if flaps > 0 then Cost(Rises(flaps) - 1, Margin(cfg)) else 0;
    var m := Margin(cfg);
    if flaps > 0 {
      assert Cost(Rises(flaps), m) == paid + m + 1;
    }
  }

  lemma {:induction false} RisesPaidForRun(cfg: HealthConfig, ps: seq<Probe>)
    ensures RisesPaidFor(cfg, Run(cfg, DEFAULT_HEALTH, ps), Flaps(cfg, DEFAULT_HEALTH, ps), |ps|)
  {
    if ps != [] {
      RisesPaidForRun(cfg, ps[..|ps| - 1]);
      RisesPaidForStep(cfg, Run(cfg, DEFAULT_HEALTH, ps[..|ps| - 1]),
                       Flaps(cfg, DEFAULT_HEALTH, ps[..|ps| - 1]), |ps| - 1, ps[|ps| - 1]);
    }
  }

  lemma CostIsProduct(k: nat, m: nat)
    ensures Cost(k, m) == k * (m + 1)
  {
  }

  lemma CeilDivBound(rises: nat, n: nat, m: nat)
    requires rises > 0 ==> Cost(rises - 1, m) + 1 <= n
    ensures rises <= CeilDiv(n, m + 1)
  {
    var x, d := n + m, m + 1;
    CostIsProduct(rises, m);
    FloorBounds(x, d);
    if x / d < rises {
      MulMonotone(x / d + 1, rises, d);
    }
  }

  /** Flap bound: n probes change availability at most 2 * ceil(n / (margin + 1)) times,
      for every pair of thresholds and every pattern of successes and failures. */
  lemma FlapBound(cfg: HealthConfig, ps: seq<Probe>)
    ensures Flaps(cfg, DEFAULT_HEALTH, ps) <= 2 * CeilDiv(|ps|, Margin(cfg) + 1)
  {
    RisesPaidForRun(cfg, ps);
    var f := Flaps(cfg, DEFAULT_HEALTH, ps);
    CeilDivBound(Rises(f), |ps|, Margin(cfg));
    assert f <= 2 * Rises(f);
  }

  function Failures(n: nat, now: nat): seq<Probe> {
    seq(n, _ => Probe(false, now))
  }

  /** k + 1 rounds of one success followed by `margin` failures. */
  function Oscillation(cfg: HealthConfig, k: nat, now: nat): seq<Probe> {
    if k == 0 then [] + [Probe(true, now)] + Failures(Margin(cfg), now)
    else Oscillation(cfg, k - 1, now) + [Probe(true, now)] + Failures(Margin(cfg), now)
  }

  lemma RunAppend(cfg: HealthConfig, h: HealthView, ps: seq<Probe>, p: Probe)
    ensures Run(cfg, h, ps + [p]) == OnProbe(cfg, Run(cfg, h, ps), p)
    ensures Flaps(cfg, h, ps + [p]) == Flaps(cfg, h, ps) +
              if IsAvailable(Run(cfg, h, ps)) != IsAvailable(Run(cfg, h, ps + [p])) then 1 else 0
  {
    assert (ps + [p])[..|ps + [p]| - 1] == ps;
  }

  lemma {:induction false} FailuresFromHealthy(cfg: HealthConfig, ps: seq<Probe>, n: nat, now: nat)
    requires Margin(cfg) == Max(cfg.failureThreshold, 1) && n <= Margin(cfg)
    requires Run(cfg, DEFAULT_HEALTH, ps).state == Healthy && Run(cfg, DEFAULT_HEALTH, ps).failures == 0
    ensures var h := Run(cfg, DEFAULT_HEALTH, ps + Failures(n, now));
            && h.failures == n
            && h.state == (if n == Margin(cfg) then Degraded else Healthy)
    ensures Flaps(cfg, DEFAULT_HEALTH, ps + Failures(n, now))
            == Flaps(cfg, DEFAULT_HEALTH, ps) + if n == Margin(cfg) then 1 else 0
  {
    if n == 0 {
      assert ps + Failures(0, now) == ps;
    } else {
      FailuresFromHealthy(cfg, ps, n - 1, now);
      RunAppend(cfg, DEFAULT_HEALTH, ps + Failures(n - 1, now), Probe(false, now));
      assert ps + Failures(n, now) == ps + Failures(n - 1, now) + [Probe(false, now)];
    }
  }

  lemma OneRound(cfg: HealthConfig, ps: seq<Probe>, now: nat)
    requires Margin(cfg) == Max(cfg.failureThreshold, 1)
    requires ps == [] || Run(cfg, DEFAULT_HEALTH, ps).state == Degraded
    ensures var qs := ps + [Probe(true, now)] + Failures(Margin(cfg), now);
            && |qs| == |ps| + Margin(cfg) + 1
            && Flaps(cfg, DEFAULT_HEALTH, qs) == Flaps(cfg, DEFAULT_HEALTH, ps) + 2
            && Run(cfg, DEFAULT_HEALTH, qs).state == Degraded
  {
    var up := ps + [Probe(true, now)];
    RunAppend(cfg, DEFAULT_HEALTH, ps, Probe(true, now));
    assert Run(cfg, DEFAULT_HEALTH, up).state == Healthy;
    assert Flaps(cfg, DEFAULT_HEALTH, up) == Flaps(cfg, DEFAULT_HEALTH, ps) + 1;
    FailuresFromHealthy(cfg, up, Margin(cfg), now);
  }

  lemma {:induction false} OscillationRun(cfg: HealthConfig, k: nat, now: nat)
    requires Margin(cfg) == Max(cfg.failureThreshold, 1)
    ensures |Oscillation(cfg, k, now)| == Cost(k + 1, Margin(cfg))
    ensures Flaps(cfg, DEFAULT_HEALTH, Oscillation(cfg, k, now)) == 2 * (k + 1)
    ensures Run(cfg, DEFAULT_HEALTH, Oscillation(cfg, k, now)).state == Degraded
  {
    if k == 0 {
      OneRound(cfg, [], now);
      assert Cost(1, Margin(cfg)) == Margin(cfg) + 1;
    } else {
      OscillationRun(cfg, k - 1, now);
      OneRound(cfg, Oscillation(cfg, k - 1, now), now);
    }
  }

  /** The bound is met exactly, at every multiple of margin + 1, whenever the failure
      threshold is the smaller one: no better constant exists. */
  lemma FlapBoundTight(cfg: HealthConfig, k: nat, now: nat)
    requires Margin(cfg) == Max(cfg.failureThreshold, 1)
    ensures var ps := Oscillation(cfg, k, now);
            && |ps| == (k + 1) * (Margin(cfg) + 1)
            && Flaps(cfg, DEFAULT_HEALTH, ps) == 2 * CeilDiv(|ps|, Margin(cfg) + 1)
  {
    hide Run, Flaps, Cost, CeilDiv, Margin;
    OscillationRun(cfg, k, now);
    CyclesFill(k, Margin(cfg));
  }

  function Successes(n: nat, now: nat): seq<Probe> {
    seq(n, _ => Probe(true, now))
  }

  /** One failure, then k rounds of `margin` successes and one failure. */
  function Relapses(cfg: HealthConfig, k: nat, now: nat): seq<Probe> {
    if k == 0 then [Probe(false, now)]
    else Relapses(cfg, k - 1, now) + Successes(Margin(cfg), now) + [Probe(false, now)]
  }

  lemma {:induction false} SuccessesFromDown(cfg: HealthConfig, ps: seq<Probe>, n: nat, now: nat)
    requires Margin(cfg) == Max(cfg.recoveryThreshold, 1) && n <= Margin(cfg)
    requires Run(cfg, DEFAULT_HEALTH, ps).state == Down && Run(cfg, DEFAULT_HEALTH, ps).successes == 0
    ensures var h := Run(cfg, DEFAULT_HEALTH, ps + Successes(n, now));
            && h.successes == n
            && h.state == (if n == Margin(cfg) then Recovering else Down)
    ensures Flaps(cfg, DEFAULT_HEALTH, ps + Successes(n, now))
            == Flaps(cfg, DEFAULT_HEALTH, ps) + if n == Margin(cfg) then 1 else 0
  {
    if n == 0 {
      assert ps + Successes(0, now) == ps;
    } else {
      SuccessesFromDown(cfg, ps, n - 1, now);
      RunAppend(cfg, DEFAULT_HEALTH, ps + Successes(n - 1, now), Probe(true, now));
      assert ps + Successes(n, now) == ps + Successes(n - 1, now) + [Probe(true, now)];
    }
  }

  lemma {:induction false} RelapsesRun(cfg: HealthConfig, k: nat, now: nat)
    requires Margin(cfg) == Max(cfg.recoveryThreshold, 1)
    ensures |Relapses(cfg, k, now)| == 1 + Cost(k, Margin(cfg))
    ensures Flaps(cfg, DEFAULT_HEALTH, Relapses(cfg, k, now)) == 2 * k
    ensures var h := Run(cfg, DEFAULT_HEALTH, Relapses(cfg, k, now)); h.state == Down && h.successes == 0
  {
    if k == 0 {
      RunAppend(cfg, DEFAULT_HEALTH, [], Probe(false, now));
      assert [] + [Probe(false, now)] == [Probe(false, now)];
    } else {
      var before := Relapses(cfg, k - 1, now);
      RelapsesRun(cfg, k - 1, now);
      SuccessesFromDown(cfg, before, Margin(cfg), now);
      RunAppend(cfg, DEFAULT_HEALTH, before + Successes(Margin(cfg), now), Probe(false, now));
    }
  }

  /** When the recovery threshold is the smaller one, as with the default thresholds, the bound
      is missed by one change at most, at every multiple of margin + 1. */
  lemma FlapBoundNearlyTight(cfg: HealthConfig, k: nat, now: nat)
    requires Margin(cfg) == Max(cfg.recoveryThreshold, 1)
    ensures var ps := Relapses(cfg, k, now) + Successes(Margin(cfg), now);
            && |ps| == (k + 1) * (Margin(cfg) + 1)
            && Flaps(cfg, DEFAULT_HEALTH, ps) == 2 * CeilDiv(|ps|, Margin(cfg) + 1) - 1
  {
    hide Run, Flaps, Cost, CeilDiv, Margin;
    var m := Margin(cfg);
    RelapsesRun(cfg, k, now);
    SuccessesFromDown(cfg, Relapses(cfg, k, now), m, now);
    CyclesFill(k, m);
  }

  lemma CyclesFill(k: nat, m: nat)
    ensures 1 + Cost(k, m) + m == Cost(k + 1, m) == (k + 1) * (m + 1)
    ensures CeilDiv(Cost(k + 1, m), m + 1) == k + 1
  {
    CostIsProduct(k + 1, m);
    DivUnique((k + 1) * (m + 1) + m, m + 1, k + 1);
  }

  // ---------------------------------------------------------------- what a change needs

  function Trailing(ok: bool, ps: seq<Probe>): nat {
    if ps == [] || ps[|ps| - 1].ok != ok then 0 else 1 + Trailing(ok, ps[..|ps| - 1])
  }

  /** The counters count the trailing probes of one kind, in every reachable state. */
  lemma {:induction false} CountersAreTrailingRuns(cfg: HealthConfig, ps: seq<Probe>)
    ensures Run(cfg, DEFAULT_HEALTH, ps).failures == Trailing(false, ps)
    ensures Run(cfg, DEFAULT_HEALTH, ps).successes == Trailing(true, ps)
  {
    if ps != [] { CountersAreTrailingRuns(cfg, ps[..|ps| - 1]); }
  }

  /** Availability is lost only by one failure while recovering, or by a full run of
      consecutive failures while healthy; it is gained only by the very first probe, by one
      success while degraded, or by a full run of consecutive successes while down. */
  lemma ChangesNeedEvidence(cfg: HealthConfig, ps: seq<Probe>)
    requires ps != []
    ensures var before := Run(cfg, DEFAULT_HEALTH, ps[..|ps| - 1]);
            var after := Run(cfg, DEFAULT_HEALTH, ps);
            && (IsAvailable(before) && !IsAvailable(after) <==>
                  || (before.state == Recovering && Trailing(false, ps) >= 1)
                  || (before.state == Healthy
                      && Trailing(false, ps) >= Max(cfg.failureThreshold, 1)))
            && (!IsAvailable(before) && IsAvailable(after) <==>
                  || (|ps| == 1 && ps[0].ok)
                  || (before.state == Degraded && Trailing(true, ps) >= 1)
                  || (before.state == Down
                      && Trailing(true, ps) >= Max(cfg.recoveryThreshold, 1)))
  {
    CountersAreTrailingRuns(cfg, ps);
    RisesPaidForRun(cfg, ps[..|ps| - 1]);
  }

  // ---------------------------------------------------------------- the states, from the probes alone

  predicate All(ok: bool, ps: seq<Probe>) {
    forall p <- ps :: p.ok == ok
  }

  /** Where a run of equal probes takes the state. */
  lemma {:induction false} Continues(cfg: HealthConfig, ps: seq<Probe>, qs: seq<Probe>, ok: bool)
    requires All(ok, qs)
    ensures Trailing(ok, ps + qs) == |qs| + Trailing(ok, ps)
    ensures qs != [] ==> Trailing(!ok, ps + qs) == 0
  {
    if qs == [] {
      assert ps + qs == ps;
    } else {
      var init := qs[..|qs| - 1];
      Continues(cfg, ps, init, ok);
      assert (ps + qs)[..|ps + qs| - 1] == ps + init;
    }
  }

  lemma {:induction false} TrailingStates(cfg: HealthConfig, ps: seq<Probe>)
    ensures var h, t, n := Run(cfg, DEFAULT_HEALTH, ps), Trailing(true, ps), Max(cfg.recoveryThreshold, 1);
            && (h.state == Unknown ==> ps == [])
            && (h.state == Down ==> t < n)
            && (h.state == Recovering ==> t == n)
            && (h.state == Healthy ==> Trailing(false, ps) < Max(cfg.failureThreshold, 1))
            && (h.state == Degraded ==> Trailing(false, ps) == Max(cfg.failureThreshold, 1))
  {
    CountersAreTrailingRuns(cfg, ps);
    if ps != [] {
      TrailingStates(cfg, ps[..|ps| - 1]);
      CountersAreTrailingRuns(cfg, ps[..|ps| - 1]);
    }
  }

  /** Recovery ends.  One success more than the recovery threshold in a row makes any interface
      healthy, whatever it went through before. */
  lemma RecoveryEnds(cfg: HealthConfig, ps: seq<Probe>)
    requires Trailing(true, ps) > Max(cfg.recoveryThreshold, 1)
    ensures Run(cfg, DEFAULT_HEALTH, ps).state == Healthy
  {
    TrailingStates(cfg, ps);
    CountersAreTrailingRuns(cfg, ps);
  }

  /** A healthy interface with no failure pending takes failures until their number reaches the
      threshold, is then unavailable, and down after one more. */
  lemma {:induction false} FailuresCount(cfg: HealthConfig, ps: seq<Probe>, qs: seq<Probe>)
    requires All(false, qs) && Trailing(true, ps) > Max(cfg.recoveryThreshold, 1)
    ensures var n := Max(cfg.failureThreshold, 1);
            Run(cfg, DEFAULT_HEALTH, ps + qs).state
            == if |qs| < n then Healthy else if |qs| == n then Degraded else Down
  {
    if qs == [] {
      assert ps + qs == ps;
      RecoveryEnds(cfg, ps);
    } else {
      var init := qs[..|qs| - 1];
      FailuresCount(cfg, ps, init);
      assert (ps + qs)[..|ps + qs| - 1] == ps + init;
      Continues(cfg, ps, init, false);
      CountersAreTrailingRuns(cfg, ps + init);
      assert Trailing(false, ps) == 0;
    }
  }

  /** From down it takes the recovery threshold of successes in a row to be available again, and
      one more to be healthy. */
  lemma {:induction false} SuccessesCount(cfg: HealthConfig, ps: seq<Probe>, qs: seq<Probe>)
    requires All(true, qs) && Trailing(false, ps) > 0 && Run(cfg, DEFAULT_HEALTH, ps).state == Down
    ensures var n := Max(cfg.recoveryThreshold, 1);
            Run(cfg, DEFAULT_HEALTH, ps + qs).state
            == if |qs| < n then Down else if |qs| == n then Recovering else Healthy
  {
    if qs == [] {
      assert ps + qs == ps;
    } else {
      var init := qs[..|qs| - 1];
      SuccessesCount(cfg, ps, init);
      assert (ps + qs)[..|ps + qs| - 1] == ps + init;
      Continues(cfg, ps, init, true);
      CountersAreTrailingRuns(cfg, ps + init);
      assert Trailing(true, ps) == 0;
    }
  }

  /** The whole machine on probes alone: it starts up with the first probe; once up for good it
      loses availability with exactly the failure threshold of failures in a row, and gets it
      back with one success; after one more failure only the recovery threshold of successes in a
      row does, and a failure before the next one undoes that. */
  lemma OutageAndRecovery(cfg: HealthConfig, ps: seq<Probe>, fails: seq<Probe>, oks: seq<Probe>, p: Probe)
    requires Trailing(true, ps) > Max(cfg.recoveryThreshold, 1) && All(false, fails) && All(true, oks)
    ensures var n, m := Max(cfg.failureThreshold, 1), Max(cfg.recoveryThreshold, 1);
            && (IsAvailable(Run(cfg, DEFAULT_HEALTH, ps + fails)) <==> |fails| < n)
            && (|fails| == n && p.ok ==> Run(cfg, DEFAULT_HEALTH, ps + fails + [p]).state == Healthy)
            && (|fails| > n ==> (IsAvailable(Run(cfg, DEFAULT_HEALTH, ps + fails + oks)) <==> |oks| >= m))
            && (|fails| > n && |oks| == m && !p.ok ==> Run(cfg, DEFAULT_HEALTH, ps + fails + oks + [p]).state == Down)
    ensures Run(cfg, DEFAULT_HEALTH, [p]).state == if p.ok then Healthy else Down
  {
    FailuresCount(cfg, ps, fails);
    RunAppend(cfg, DEFAULT_HEALTH, ps + fails, p);
    RunAppend(cfg, DEFAULT_HEALTH, [], p);
    assert [] + [p] == [p];
    if |fails| > Max(cfg.failureThreshold, 1) {
      Continues(cfg, ps, fails, false);
      SuccessesCount(cfg, ps + fails, oks);
      RunAppend(cfg, DEFAULT_HEALTH, ps + fails + oks, p);
    }
  }

  /** What else the record says: when it was probed last, and whether it ever answered. */
  lemma {:induction false} RecordFields(cfg: HealthConfig, ps: seq<Probe>)
    ensures var h := Run(cfg, DEFAULT_HEALTH, ps);
            && (ps != [] ==> h.lastCheck == ps[|ps| - 1].now)
            && (h.linkUp <==> exists p <- ps :: p.ok)
            && !h.gatewayReachable && !h.targetReachable
  {
    if ps != [] {
      RecordFields(cfg, ps[..|ps| - 1]);
      assert ps == ps[..|ps| - 1] + [ps[|ps| - 1]];
    }
  }
}
