/** The daemon: applying the configuration it holds, and the probe loop that does so again
    whenever the availability of an interface changes. */
module Daemons {
  import opened Net
  import opened Model
  import opened Seqs
  import opened Config
  import opened Health
  import opened Policy
  import opened Claims
  import opened Fib
  import opened Kernel
  import opened Netlink
  import opened Planner
  import opened State
  import opened Reconcile
  import opened Transaction
  import opened Pipeline
  import opened Probes
  import opened Convergence
  import opened Gateways
  import opened History
  import opened Orphans

  datatype ApplyError = Rejected(why: Violation) | NoInterfaces | Failed(cause: Error)

  /** A strict configuration answers every LAN domain itself. */
  lemma StrictNeedsNoDns(rd: Reader, c: Settings)
    requires Strict(rd, c)
    ensures c.mode == Manual && !NeedsLanDns(c)
  {
  }

  /** What the engine and the planner were given, what the run did, and how it ended. */
  datatype Attempt = Attempt(
    engine: PolicyEngine, desired: DesiredState, before: Snapshot, after: Snapshot, fileBefore: StateFile,
    fileAfter: StateFile, log: Log)

  /** The interface and gateway readings of one attempt. */
  datatype Readings = Readings(ifaces: Option<seq<Interface>>, gateway6: Option<Addr>)

  /** The attempt reconciled the kernel with the configuration under this health map. */
  ghost predicate Faithful(a: Attempt, rd: Reader, c: Settings, hm: HealthMap, wan: Option<string>, x: Readings) {
    && x.ifaces.Some?
    && BuiltFrom(a.engine, rd, c, x.ifaces.value, wan, if wan.Some? then x.gateway6 else None)
    && a.desired == DesiredFor(rd, c, DesiredRoutes(a.engine, hm), wan)
    && GuardFirst(a.before, a.after, a.desired, a.log)
    && NeverStranded(a.desired, a.log)
    && MakeBeforeBreak(a.before, Recorded(a.fileBefore), a.desired, a.log)
  }

  ghost predicate Untouched(a: Attempt) {
    a.log == EMPTY_LOG && a.after == a.before && a.fileAfter == a.fileBefore
  }

  class Daemon {
    var config: Settings
    var healthMap: HealthMap
    const healthCfg: HealthConfig
    const defaultWan: Option<string>
    const reconciler: Reconciler

    /** The WAN of the configuration unless it says "auto", else the detected one. */
    constructor (config: Settings, detected: Option<string>, healthCfg: HealthConfig, reconciler: Reconciler)
      ensures this.config == config && this.healthMap == NO_HEALTH && this.healthCfg == healthCfg
      ensures this.reconciler == reconciler
      ensures defaultWan == if config.wanInterfaces != [] && config.wanInterfaces[0] != "auto"
                            then Some(config.wanInterfaces[0]) else detected
      ensures forall rd :: Strict(rd, config) ==> defaultWan == Some(config.wanInterfaces[0])
    {
      this.config, this.healthMap, this.healthCfg, this.reconciler := config, NO_HEALTH, healthCfg, reconciler;
      defaultWan := if config.wanInterfaces != [] && config.wanInterfaces[0] != "auto"
                    then Some(config.wanInterfaces[0]) else detected;
    }

    /** `execute_apply`: only strict configurations get past the first check, and those never
        reach detection or the LAN DNS branch, so the configuration stays as it is and there is
        no second attempt. */
    method ExecuteApply(rd: Reader, x: Readings, dryRun: bool) returns (r: Result<Report, ApplyError>, ghost a: Attempt)
      modifies `config, reconciler.netlink, reconciler.stateManager
      ensures config == old(config)
      ensures r.Err? && r.error.Rejected? <==> !Strict(rd, config)
      ensures r.Err? && r.error.Rejected? ==> Justified(rd, config, r.error.why)
      ensures a.before == old(reconciler.netlink.Now()) && a.after == reconciler.netlink.Now()
      ensures a.fileBefore == old(reconciler.stateManager.file) && a.fileAfter == reconciler.stateManager.file
      ensures reconciler.netlink.trace == old(reconciler.netlink.trace) + a.log.All()
      ensures !Strict(rd, config) || x.ifaces.None? ==> r.Err? && Untouched(a)
      ensures Strict(rd, config) && x.ifaces.Some? ==> Faithful(a, rd, config, healthMap, defaultWan, x)
      ensures r.Ok? && !dryRun && reconciler.netlink.failed == old(reconciler.netlink.failed) ==>
                && Turn(a.before, Recorded(a.fileBefore), a.after, Recorded(a.fileAfter), a.desired)
                && (Committed(Ok(r.value)) ==> CleanCommit(a.before, a.after, Recorded(a.fileBefore), a.desired))
      ensures Strict(rd, config) && x.ifaces.Some? && reconciler.Failures() == old(reconciler.Failures()) ==>
                (r.Ok? <==> Proceeds(a.before.main, a.fileBefore, a.desired, dryRun))
      ensures dryRun ==> a.after == a.before && a.log.All() == []
      ensures DefaultStays(a.before.main, a.after.main, WanOf(config, defaultWan))
      ensures a.fileAfter.Corrupt? ==>
                a.fileBefore.Corrupt? || reconciler.stateManager.failed > old(reconciler.stateManager.failed)
      ensures reconciler.netlink.failed >= old(reconciler.netlink.failed)
      ensures reconciler.stateManager.failed >= old(reconciler.stateManager.failed)
    {
      hide Strict, GuardFirst, NeverStranded, MakeBeforeBreak, CleanCommit, CleanEnd, Observed, AfterDiff,
           Reversible, Synced, NothingToDo, ValidDesired, Commit, BuiltFrom, RulesAfter, Proceeds, HasDefault,
           UndoSucceeded, UndoGap, Leaves, RulesWithin, ActiveInterfaces, Diff, WanOf, Turn, DesiredRoutes,
           WhitelistOf;
      ghost var before, fileBefore := reconciler.netlink.Now(), reconciler.stateManager.file;
      ghost var failed0 := reconciler.netlink.failed;
      var nothing := DesiredState([], [], [], None, [], []);
      ghost var idle := PolicyEngine(0, [], None, map[], [], [], None, None);
      a := Attempt(idle, nothing, before, before, fileBefore, fileBefore, EMPTY_LOG);
      var why := ValidateStrict(rd, config);
      if why.Some? { return Err(Rejected(why.value)), a; }
      StrictNeedsNoDns(rd, config);
      var needsLanDns := NeedsLanDns(config);
      if x.ifaces.None? { return Err(NoInterfaces), a; }
      if config.mode != Manual { assert false; }
      var engine, desired := Compile(rd, x.ifaces.value, x.gateway6);
      var report;
      ghost var log;
      report, log := reconciler.Reconcile(desired, dryRun);
      a := Attempt(engine, desired, before, reconciler.netlink.Now(), fileBefore, reconciler.stateManager.file, log);
      if report.Ok? && !dryRun && reconciler.netlink.failed == failed0 {
        EndIsTurn(a.before, a.fileBefore, a.after, a.fileAfter, desired, report, log);
      }
      if report.Err? { return Err(Failed(report.error)), a; }
      if !dryRun && report.value.applied && needsLanDns { assert false; }
      r := Ok(report.value);
    }

    /** The engine of the configuration, and the desired state it compiles to. */
    method Compile(rd: Reader, ifaces: seq<Interface>, gateway6: Option<Addr>)
      returns (engine: PolicyEngine, desired: DesiredState)
      ensures BuiltFrom(engine, rd, config, ifaces, defaultWan, if defaultWan.Some? then gateway6 else None)
      ensures desired == DesiredFor(rd, config, DesiredRoutes(engine, healthMap), defaultWan)
    {
      hide BuiltFrom, DesiredRoutes;
      engine := FromConfig(rd, config, ifaces, defaultWan, if defaultWan.Some? then gateway6 else None);
      var routes := GenerateDesiredRoutes(engine, healthMap);
      desired := DesiredState(routes, [RpdbRule(config.rulePriority, config.tableId)], [], None, [], []);
      desired := desired.(wanInterface := WanOf(config, defaultWan), lanInterfaces := config.lanInterfaces,
                          blacklist := config.blacklist);
      var whitelist := CollectWhitelist(rd, config);
      desired := desired.(firewallWhitelist := whitelist);
    }

    /** One turn of the probe loop.  The health map moves one probe per listed interface; a
        change of availability reconciles under the new map; otherwise stray default routes of
        the targets' interfaces are taken out again, and the WAN keeps its own. */
    method ProbeTick(rd: Reader, x: Readings, up: set<string>, now: nat)
      returns (triggered: bool, ghost outcome: Result<Report, ApplyError>, ghost a: Attempt)
      modifies `config, `healthMap, reconciler.netlink, reconciler.stateManager
      ensures var tick := Tick(ProbeList(config), up, now);
              && healthMap == Probed(healthCfg, old(healthMap), tick.probed, tick)
              && (triggered <==> Triggers(healthCfg, old(healthMap), tick))
      ensures config == old(config)
      ensures triggered && Strict(rd, config) && x.ifaces.Some? ==>
                && a.before == old(reconciler.netlink.Now()) && a.after == reconciler.netlink.Now()
                && a.fileBefore == old(reconciler.stateManager.file) && a.fileAfter == reconciler.stateManager.file
                && Faithful(a, rd, config, healthMap, defaultWan, x)
      ensures triggered && outcome.Ok? && reconciler.netlink.failed == old(reconciler.netlink.failed) ==>
                && Turn(a.before, Recorded(a.fileBefore), a.after, Recorded(a.fileAfter), a.desired)
                && (Committed(Ok(outcome.value)) ==> CleanCommit(a.before, a.after, Recorded(a.fileBefore), a.desired))
      ensures triggered ==> (outcome.Err? && outcome.error.Rejected? <==> !Strict(rd, config))
      ensures triggered && x.ifaces.None? ==> outcome.Err?
      ensures triggered && Strict(rd, config) && x.ifaces.Some? &&
              reconciler.Failures() == old(reconciler.Failures()) ==>
                (outcome.Ok? <==> Proceeds(a.before.main, a.fileBefore, a.desired, false))
      ensures DefaultStays(old(reconciler.netlink.main), reconciler.netlink.main, WanOf(config, defaultWan))
      ensures reconciler.stateManager.file.Corrupt? ==>
                || old(reconciler.stateManager.file).Corrupt?
                || reconciler.stateManager.failed > old(reconciler.stateManager.failed)
      ensures reconciler.netlink.failed >= old(reconciler.netlink.failed)
      ensures reconciler.stateManager.failed >= old(reconciler.stateManager.failed)
      ensures !triggered ==>
                && MainOnly(old(reconciler.netlink.Now()), reconciler.netlink.Now())
                && reconciler.stateManager.file == old(reconciler.stateManager.file)
                && OnlyDefaultsGo(old(reconciler.netlink.main), reconciler.netlink.main,
                                  if WanOf(config, defaultWan).None? then {}
                                  else LanDevices(config.targets, WanOf(config, defaultWan).value))
                && (reconciler.netlink.failed == old(reconciler.netlink.failed) && WanOf(config, defaultWan).Some? ==>
                      forall t <- config.targets, i <- t.via ::
                        i != WanOf(config, defaultWan).value ==> !HasDefault(reconciler.netlink.main, i))
      ensures !triggered || !Strict(rd, config) ==> reconciler.netlink.routes == old(reconciler.netlink.routes)
    {
      hide HasDefault, WanOf, Faithful, Turn, CleanCommit, Strict, ProbeList, Proceeds;
      ProbeListDistinct(config);
      var list := ProbeList(config);
      triggered := RecordProbes(list, up, now);
      outcome := Err(NoInterfaces);
      if triggered {
        var r;
        r, a := ExecuteApply(rd, x, false);
        outcome := r;
      } else {
        ghost var now0 := reconciler.netlink.Now();
        a := Attempt(PolicyEngine(0, [], None, map[], [], [], None, None), DesiredState([], [], [], None, [], []),
                     now0, now0, reconciler.stateManager.file, reconciler.stateManager.file, EMPTY_LOG);
        var wan := WanOf(config, defaultWan);
        NothingGone(reconciler.netlink.main, {});
        if wan.Some? { GuardDefaults(config.targets, wan.value); }
      }
    }

    /** The daemon's life: what an earlier run recorded is reset, the policy is applied once, and
        the probe loop follows the health of the interfaces.  If nothing fails and the interfaces
        can be read, the kernel holds at the end what the health map compiles to that was current
        on the last reconciliation with the first gateways, and beside it, untouched, the entries
        that neither the reset nor the first policy took, provided that these lie on no claimed
        block or that the loop never reconciles.
        With agreeing readings that map is the current one.  There are at most as many
        reconciliations as availability can change. */
    method Run(rd: Reader, first: Readings, obs: seq<Observation>, ghost e: PolicyEngine)
      returns (reconciliations: nat)
      modifies `config, `healthMap, reconciler.netlink, reconciler.stateManager
      ensures config == old(config)
      ensures old(healthMap) == NO_HEALTH ==>
                && healthMap == After(healthCfg, TicksFor(config, obs))
                && reconciliations == Triggered(healthCfg, TicksFor(config, obs))
                && reconciliations <= |ProbeList(config)| * (2 * CeilDiv(|obs|, Margin(healthCfg) + 1))
      ensures var t := Remaining(old(reconciler.netlink.routes), old(reconciler.stateManager.file));
              var base := Orphaned(t, e, NO_HEALTH);
              old(FreshStart()) && Watched(e, rd, config, defaultWan) && EngineOf(e, rd, config, defaultWan, first) &&
              (Apart(base, e) || reconciliations == 0) && config.tableId == 52000 && AllRead(obs) &&
              reconciler.Failures() == old(reconciler.Failures()) ==>
                && Holds(base, e, Followed(e, rd, config, defaultWan, healthCfg, obs, NO_HEALTH, NO_HEALTH))
                && ((forall o <- obs :: SameReadings(e, rd, config, defaultWan, o.x)) ==> Holds(base, e, healthMap))
    {
      hide InStep, Faithful, Turn, CleanCommit, Tractable, OnlyIpv4, Triggers, Probed, After, Triggered,
           SameReadings, Usable, HasDefault, WanOf, Strict, ProbeList, CeilDiv, Margin, Proceeds, Watched,
           Followed, WithoutRecorded, DefaultStays, Remaining, IsDefaultOn, BuiltFrom, Restored, Flushed,
           ToolChainsGone, RecordedRulesGone, WellFormed, Orphaned, Apart, InStepBeside;
      ghost var started, before, file0 := FreshStart(), reconciler.netlink.Now(), reconciler.stateManager.file;
      ghost var failures := reconciler.Failures();
      if !reconciler.stateManager.file.Absent? {
        ghost var record, wan := reconciler.Reset();
        if started && reconciler.Failures() == failures {
          AfterReset(before, file0, record, wan, reconciler.netlink.Now(), defaultWan);
        }
      } else if started {
        NoReset(before, file0, defaultWan);
      }
      ghost var base := Orphaned(Remaining(before.routes, file0), e, NO_HEALTH);
      var r;
      ghost var a;
      ghost var healthy, at := reconciler.Failures() == failures, healthMap;
      r, a := ExecuteApply(rd, first, false);
      if started && healthy && Watched(e, rd, config, defaultWan) && EngineOf(e, rd, config, defaultWan, first) &&
         config.tableId == 52000 && reconciler.Failures() == failures {
        WatchedParts(e, rd, config, defaultWan);
        StillUp(a.before.main, a.after.main, defaultWan);
        FirstAttemptInStep(e, rd, config, defaultWan, first, at, a);
      }
      reconciliations := Watch(rd, obs, base, e, at);
      TicksProbe(config, obs);
      FailoverBound(healthCfg, ProbeList(config), TicksFor(config, obs));
      if started && Holds(base, e, Followed(e, rd, config, defaultWan, healthCfg, obs, at, at)) &&
         (forall o <- obs :: SameReadings(e, rd, config, defaultWan, o.x)) {
        FollowedIsCurrent(e, rd, config, defaultWan, healthCfg, obs, at);
        BesideStays(base, e, RuleOf(config), reconciler.netlink.Now(), reconciler.netlink.Now(),
                    Recorded(reconciler.stateManager.file),
                    Followed(e, rd, config, defaultWan, healthCfg, obs, at, at), healthMap);
      }
    }

    /** Nobody probed yet, and a default route on the WAN that survives the reset, if there is one. */
    ghost predicate FreshStart()
      reads this, reconciler, reconciler.netlink, reconciler.stateManager
    {
      && healthMap == NO_HEALTH
      && (defaultWan.Some? ==>
            exists k <- reconciler.netlink.main.Keys ::
              && IsDefaultOn(reconciler.netlink.main, k, defaultWan.value)
              && (reconciler.stateManager.file.Absent? || k.prio != 50))
    }

    /** The kernel is in step with this health map, with the base beside, and the next turn can
        proceed. */
    ghost predicate Holds(base: Table, e: PolicyEngine, hm: HealthMap)
      reads this, reconciler, reconciler.netlink, reconciler.stateManager
    {
      && InStepBeside(base, e, RuleOf(config), reconciler.netlink.Now(), Recorded(reconciler.stateManager.file), hm)
      && !reconciler.stateManager.file.Corrupt?
      && (defaultWan.Some? ==> HasDefault(reconciler.netlink.main, defaultWan.value))
    }

    /** The first turns of the probe loop, one per observation. */
    method Watch(rd: Reader, obs: seq<Observation>, ghost base: Table, ghost e: PolicyEngine, ghost at: HealthMap)
      returns (reconciliations: nat)
      modifies `config, `healthMap, reconciler.netlink, reconciler.stateManager
      ensures config == old(config)
      ensures healthMap == HealthFrom(healthCfg, config, old(healthMap), obs)
      ensures old(healthMap) == NO_HEALTH ==>
                && healthMap == After(healthCfg, TicksFor(config, obs))
                && reconciliations == Triggered(healthCfg, TicksFor(config, obs))
      ensures Watched(e, rd, config, defaultWan) && (Apart(base, e) || reconciliations == 0) && AllRead(obs) &&
              old(Holds(base, e, at)) && reconciler.Failures() == old(reconciler.Failures()) ==>
                Holds(base, e, Followed(e, rd, config, defaultWan, healthCfg, obs, old(healthMap), at))
      ensures reconciler.netlink.failed >= old(reconciler.netlink.failed)
      ensures reconciler.stateManager.failed >= old(reconciler.stateManager.failed)
    {
      hide InStep, Faithful, Turn, CleanCommit, Tractable, OnlyIpv4, BuiltFrom, Triggers, Probed, After, Triggered,
           SameReadings, Usable, HasDefault, WanOf, Strict, Watched, Proceeds, Followed, DefaultStays,
           Apart, InStepBeside;
      reconciliations := 0;
      ghost var start := Watched(e, rd, config, defaultWan) && AllRead(obs) && Holds(base, e, at);
      ghost var hm0 := healthMap;
      ghost var failures := reconciler.Failures();
      NoTicks(healthCfg, config, obs);
      FollowedNone(e, rd, config, defaultWan, healthCfg, obs, hm0, at);
      for i := 0 to |obs|
        invariant config == old(config) && reconciler.netlink.failed >= old(reconciler.netlink.failed)
        invariant reconciler.stateManager.failed >= old(reconciler.stateManager.failed)
        invariant old(healthMap) == NO_HEALTH ==>
                    && healthMap == After(healthCfg, TicksFor(config, obs[..i]))
                    && reconciliations == Triggered(healthCfg, TicksFor(config, obs[..i]))
        invariant healthMap == HealthFrom(healthCfg, config, hm0, obs[..i])
        invariant start && reconciler.Failures() == failures && (Apart(base, e) || reconciliations == 0) ==>
                    Holds(base, e, Followed(e, rd, config, defaultWan, healthCfg, obs[..i], hm0, at))
      {
        ghost var h0, file0 := reconciler.netlink.Now(), reconciler.stateManager.file;
        ghost var held := Followed(e, rd, config, defaultWan, healthCfg, obs[..i], hm0, at);
        var triggered;
        ghost var outcome, a;
        triggered, outcome, a := ProbeTick(rd, obs[i].x, obs[i].up, obs[i].now);
        NextTick(healthCfg, config, obs, i);
        NextFollowed(e, rd, config, defaultWan, healthCfg, obs, i, hm0, at);
        if triggered { reconciliations := reconciliations + 1; }
        if start && reconciler.Failures() == failures && (Apart(base, e) || reconciliations == 0) {
          assert obs[i] in obs;
          WatchedParts(e, rd, config, defaultWan);
          StillUp(h0.main, reconciler.netlink.main, defaultWan);
          if triggered {
            PlannedAttempt(e, rd, config, defaultWan, obs[i].x, healthMap, a);
            AttemptInStep(base, e, rd, config, defaultWan, obs[i].x, healthMap, a, held);
          } else {
            SameUsableSelf(held);
            BesideStays(base, e, RuleOf(config), h0, reconciler.netlink.Now(), Recorded(file0), held, held);
          }
        }
      }
      FullSlice(obs);
    }

    method RecordProbes(list: seq<string>, up: set<string>, now: nat) returns (changed: bool)
      requires forall i, j :: 0 <= i < j < |list| ==> list[i] != list[j]
      modifies `healthMap
      ensures healthMap == Probed(healthCfg, old(healthMap), list, Tick(list, up, now))
      ensures changed <==> Triggers(healthCfg, old(healthMap), Tick(list, up, now))
    {
      hide OnProbe, IsAvailable;
      changed := false;
      ghost var tick := Tick(list, up, now);
      ghost var start := healthMap;
      FullSlice(list);
      for i := 0 to |list|
        invariant healthMap == Probed(healthCfg, start, list[..i], tick)
        invariant changed <==> exists n <- list[..i] :: Usable(start, n) != Usable(healthMap, n)
      {
        var iface := list[i];
        var entry := new PathHealth(HealthOf(healthMap, iface));
        var wasAvailable := IsAvailable(entry.View());
        if iface in up { entry.RecordSuccess(healthCfg, now); } else { entry.RecordFailure(healthCfg, now); }
        var isAvailable := IsAvailable(entry.View());
        ProbeStep(healthCfg, HealthOf(healthMap, iface), iface, tick);
        ghost var mid := healthMap;
        healthMap := healthMap[iface := entry.View()];
        if wasAvailable != isAvailable { changed := true; }
        RecordedStep(healthCfg, start, list, i, tick);
      }
    }

    /** The continuous guard: failures are ignored, the next interface is tried anyway. */
    method GuardDefaults(targets: seq<TargetConfig>, wan: string)
      modifies reconciler.netlink`main, reconciler.netlink`trace, reconciler.netlink`failed, reconciler.netlink`results
      ensures HasDefault(old(reconciler.netlink.main), wan) ==> HasDefault(reconciler.netlink.main, wan)
      ensures reconciler.netlink.failed == old(reconciler.netlink.failed) ==>
                forall t <- targets, i <- t.via :: i != wan ==> !HasDefault(reconciler.netlink.main, i)
      ensures NoNewDefaults(old(reconciler.netlink.main), reconciler.netlink.main)
      ensures OnlyDefaultsGo(old(reconciler.netlink.main), reconciler.netlink.main, LanDevices(targets, wan))
      ensures forall k | k in old(reconciler.netlink.main) ::
                (k.dest == DEFAULT_NET && k !in reconciler.netlink.main ==>
                  old(reconciler.netlink.main)[k].dev != wan
                  && exists t <- targets :: old(reconciler.netlink.main)[k].dev in t.via)
      ensures reconciler.netlink.failed >= old(reconciler.netlink.failed)
    {
      hide OnlyDefaultsGo;
      var h := reconciler.netlink;
      NothingGone(h.main, LanDevices(targets, wan));
      for i := 0 to |targets|
        invariant NoNewDefaults(old(h.main), h.main) && DefaultsKeptOn(old(h.main), h.main, wan)
        invariant OnlyDefaultsGo(old(h.main), h.main, LanDevices(targets, wan))
        invariant h.failed >= old(h.failed)
        invariant h.failed == old(h.failed) ==>
                    forall t <- targets[..i], n <- t.via :: n != wan ==> !HasDefault(h.main, n)
      {
        ghost var before := h.main;
        GuardInterfaces(targets[i].via, wan);
        NoneAppears(before, h.main);
        OnlyDefaultsGoOn(old(h.main), before, h.main, LanDevices(targets, wan), Others(targets[i].via, wan),
                         LanDevices(targets, wan));
        assert targets[..i + 1] == targets[..i] + [targets[i]];
      }
      FullSlice(targets);
      GoneAreLan(old(h.main), h.main, targets, wan);
    }

    method GuardInterfaces(via: seq<string>, wan: string)
      modifies reconciler.netlink`main, reconciler.netlink`trace, reconciler.netlink`failed, reconciler.netlink`results
      ensures DefaultsKeptOn(old(reconciler.netlink.main), reconciler.netlink.main, wan)
      ensures NoNewDefaults(old(reconciler.netlink.main), reconciler.netlink.main)
      ensures OnlyDefaultsGo(old(reconciler.netlink.main), reconciler.netlink.main, Others(via, wan))
      ensures reconciler.netlink.failed == old(reconciler.netlink.failed) ==>
                forall i <- via :: i != wan ==> !HasDefault(reconciler.netlink.main, i)
      ensures reconciler.netlink.failed >= old(reconciler.netlink.failed)
    {
      hide OnlyDefaultsGo;
      var h := reconciler.netlink;
      NothingGone(h.main, Others(via, wan));
      for i := 0 to |via|
        invariant NoNewDefaults(old(h.main), h.main) && DefaultsKeptOn(old(h.main), h.main, wan)
        invariant OnlyDefaultsGo(old(h.main), h.main, Others(via, wan))
        invariant h.failed >= old(h.failed)
        invariant h.failed == old(h.failed) ==> forall n <- via[..i] :: n != wan ==> !HasDefault(h.main, n)
      {
        if via[i] != wan {
          var ok;
          ghost var steps;
          ghost var before := h.main;
          ok, steps := RemoveDefaultRoutes(h, via[i]);
          assert h.Now() in steps + [h.Now()];
          OnlyDefaultsGoOn(old(h.main), before, h.main, Others(via, wan), {via[i]}, Others(via, wan));
        }
        assert via[..i + 1] == via[..i] + [via[i]];
      }
      FullSlice(via);
    }
  }

  // ---------------------------------------------------------------- what the loop relies on

  /** What one turn of the probe loop finds. */
  datatype Observation = Observation(x: Readings, up: set<string>, now: nat)

  function TicksFor(c: Settings, obs: seq<Observation>): seq<Tick> {
    seq(|obs|, i requires 0 <= i < |obs| => Tick(ProbeList(c), obs[i].up, obs[i].now))
  }

  function RuleOf(c: Settings): RpdbRule {
    RpdbRule(c.rulePriority, c.tableId)
  }

  ghost predicate SameUsable(h1: HealthMap, h2: HealthMap) {
    forall i :: Usable(h1, i) == Usable(h2, i)
  }

  /** The engine comes from the configuration, which is strict and tractable, names IPv4 only, and
      can be planned under every health map. */
  ghost predicate Watched(e: PolicyEngine, rd: Reader, c: Settings, wan: Option<string>) {
    && ReaderOk(rd) && Strict(rd, c) && Tractable(e) && OnlyIpv4(e)
    && wan.Some? && Plannable(rd, c, e, wan.value)
    && exists ifaces, gateway6 :: BuiltFrom(e, rd, c, ifaces, wan, gateway6)
  }

  /** A strict IPv4 configuration with fitting names, whose entries over one block are written
      alike and go the same way, is watched unless the planner refuses it anyway. */
  lemma StrictWatched(rd: Reader, c: Settings, ifaces: seq<Interface>, e: PolicyEngine, gateway6: Option<Addr>,
                      wan: string)
    requires ReaderOk(rd) && Strict(rd, c) && NamesFit(rd, c, e)
    requires BuiltFrom(e, rd, c, ifaces, Some(wan), gateway6)
    requires OneWayPerBlock(rd, c) && NamesAgree(rd, c, e) && Ipv4Settings(rd, c, e)
    requires !HasDefaultNet(rd, c, e) && wan != "" && "" !in c.lanInterfaces
    ensures Watched(e, rd, c, Some(wan)) <==> (c.blacklist != [] ==> wan !in c.lanInterfaces)
  {
    hide ReaderOk, Strict, NamesFit, OneWayPerBlock, NamesAgree, Ipv4Settings, HasDefaultNet, BuiltFrom, Tractable,
         OnlyIpv4, Plannable, ValidDesired, DesiredRoutes, WhitelistOf;
    StrictTractable(rd, c, ifaces, e, gateway6, wan);
    StrictIpv4(rd, c, ifaces, e, gateway6, wan);
    AlwaysPlannable(rd, c, ifaces, e, gateway6, wan);
  }

  /** The engine built from these readings. */
  ghost predicate EngineOf(e: PolicyEngine, rd: Reader, c: Settings, wan: Option<string>, x: Readings) {
    x.ifaces.Some? && BuiltFrom(e, rd, c, x.ifaces.value, wan, if wan.Some? then x.gateway6 else None)
  }

  ghost predicate AllRead(obs: seq<Observation>) {
    forall o <- obs :: o.x.ifaces.Some?
  }

  /** An engine built from these readings has the recorded gateways. */
  ghost predicate SameReadings(e: PolicyEngine, rd: Reader, c: Settings, wan: Option<string>, x: Readings) {
    x.ifaces.Some? ==>
      forall f :: BuiltFrom(f, rd, c, x.ifaces.value, wan, if wan.Some? then x.gateway6 else None) ==> SamePins(e, f)
  }

  lemma NoTicks(cfg: HealthConfig, c: Settings, obs: seq<Observation>)
    ensures After(cfg, TicksFor(c, obs[..0])) == NO_HEALTH && Triggered(cfg, TicksFor(c, obs[..0])) == 0
  {
  }

  lemma NextTick(cfg: HealthConfig, c: Settings, obs: seq<Observation>, i: nat)
    requires i < |obs|
    ensures var before, tick := TicksFor(c, obs[..i]), Tick(ProbeList(c), obs[i].up, obs[i].now);
            && After(cfg, TicksFor(c, obs[..i + 1])) == Probed(cfg, After(cfg, before), tick.probed, tick)
            && Triggered(cfg, TicksFor(c, obs[..i + 1]))
               == Triggered(cfg, before) + if Triggers(cfg, After(cfg, before), tick) then 1 else 0
  {
    hide ProbeList, Probed, Triggers;
    var ticks := TicksFor(c, obs[..i + 1]);
    assert ticks[..i] == TicksFor(c, obs[..i]);
  }

  /** The health map after these turns. */
  function HealthFrom(cfg: HealthConfig, c: Settings, hm: HealthMap, obs: seq<Observation>): HealthMap {
    if obs == [] then hm else
      var o := obs[|obs| - 1];
      Probed(cfg, HealthFrom(cfg, c, hm, obs[..|obs| - 1]), ProbeList(c), Tick(ProbeList(c), o.up, o.now))
  }

  /** The health map of the last reconciliation whose readings gave the recorded gateways. */
  ghost function Followed(e: PolicyEngine, rd: Reader, c: Settings, wan: Option<string>, cfg: HealthConfig,
                          obs: seq<Observation>, hm: HealthMap, at: HealthMap): HealthMap
  {
    if obs == [] then at else
      var init, o := obs[..|obs| - 1], obs[|obs| - 1];
      var tick := Tick(ProbeList(c), o.up, o.now);
      if Triggers(cfg, HealthFrom(cfg, c, hm, init), tick) && SameReadings(e, rd, c, wan, o.x)
      then HealthFrom(cfg, c, hm, obs)
      else Followed(e, rd, c, wan, cfg, init, hm, at)
  }

  lemma FollowedNone(e: PolicyEngine, rd: Reader, c: Settings, wan: Option<string>, cfg: HealthConfig,
                     obs: seq<Observation>, hm: HealthMap, at: HealthMap)
    ensures Followed(e, rd, c, wan, cfg, obs[..0], hm, at) == at && HealthFrom(cfg, c, hm, obs[..0]) == hm
  {
  }

  lemma NextFollowed(e: PolicyEngine, rd: Reader, c: Settings, wan: Option<string>, cfg: HealthConfig,
                     obs: seq<Observation>, i: nat, hm: HealthMap, at: HealthMap)
    requires i < |obs|
    ensures var before, tick := HealthFrom(cfg, c, hm, obs[..i]), Tick(ProbeList(c), obs[i].up, obs[i].now);
            && HealthFrom(cfg, c, hm, obs[..i + 1]) == Probed(cfg, before, ProbeList(c), tick)
            && Followed(e, rd, c, wan, cfg, obs[..i + 1], hm, at)
               == if Triggers(cfg, before, tick) && SameReadings(e, rd, c, wan, obs[i].x)
                  then HealthFrom(cfg, c, hm, obs[..i + 1])
                  else Followed(e, rd, c, wan, cfg, obs[..i], hm, at)
  {
    hide Triggers, Probed, SameReadings, ProbeList;
    assert obs[..i + 1][..i] == obs[..i];
  }

  /** With agreeing readings the map followed is as usable as the current one. */
  lemma {:induction false} FollowedIsCurrent(e: PolicyEngine, rd: Reader, c: Settings, wan: Option<string>,
                                             cfg: HealthConfig, obs: seq<Observation>, hm: HealthMap)
    requires forall o <- obs :: SameReadings(e, rd, c, wan, o.x)
    ensures SameUsable(Followed(e, rd, c, wan, cfg, obs, hm, hm), HealthFrom(cfg, c, hm, obs))
  {
    hide SameReadings, Triggers, Usable, Probed, ProbeList;
    if obs != [] {
      var i := |obs| - 1;
      FollowedIsCurrent(e, rd, c, wan, cfg, obs[..i], hm);
      FullSlice(obs);
      NextFollowed(e, rd, c, wan, cfg, obs, i, hm, hm);
      var before, tick := HealthFrom(cfg, c, hm, obs[..i]), Tick(ProbeList(c), obs[i].up, obs[i].now);
      if !Triggers(cfg, before, tick) { QuietKeepsUsable(cfg, c, before, tick); }
    }
  }

  /** A tick that triggers nothing leaves every interface as usable as it was. */
  lemma QuietKeepsUsable(cfg: HealthConfig, c: Settings, hm: HealthMap, tick: Tick)
    requires tick.probed == ProbeList(c) && !Triggers(cfg, hm, tick)
    ensures SameUsable(hm, Probed(cfg, hm, tick.probed, tick))
  {
    hide OnProbe, ProbeList;
    ProbeListDistinct(c);
    forall i ensures Usable(hm, i) == Usable(Probed(cfg, hm, tick.probed, tick), i) {
      ProbedSpec(cfg, hm, tick.probed, tick, i);
    }
  }

  lemma SameUsableSelf(hm: HealthMap)
    ensures forall i :: Usable(hm, i) == Usable(hm, i)
  {
  }

  /** What a report without a failed command amounts to. */
  lemma EndIsTurn(h0: Snapshot, file0: StateFile, h1: Snapshot, file1: StateFile, d: DesiredState,
                  r: Result<Report, Error>, log: Log)
    requires var st := Recorded(file0);
             && r.Ok?
             && (NothingToDo(st, d) ==> h1 == h0 && !Committed(r))
             && (!NothingToDo(st, d) ==> CleanEnd(h0, h1, st, d, r, log))
             && (Committed(r) ==> CleanCommit(h0, h1, st, d) && file1 == Saved(Commit(st, d, ActiveInterfaces(d))))
             && (!Committed(r) ==> file1 == file0)
             && (Committed(r) ==> !RolledBack(r))
    ensures Turn(h0, Recorded(file0), h1, Recorded(file1), d)
  {
    hide Observed, AfterDiff, AfterUndo, NothingToDo, Commit, RulesAfter, ActiveInterfaces, MainDone;
  }

  /** The parts of being watched that the loop itself looks at. */
  lemma WatchedParts(e: PolicyEngine, rd: Reader, c: Settings, wan: Option<string>)
    requires Watched(e, rd, c, wan)
    ensures Strict(rd, c) && wan.Some? && WanOf(c, wan) == wan
  {
    hide Strict;
  }

  lemma StillUp(m0: MainTable, m: MainTable, wan: Option<string>)
    requires wan.Some? && HasDefault(m0, wan.value) && DefaultStays(m0, m, wan)
    ensures HasDefault(m, wan.value)
  {
  }

  /** The planner accepts what an attempt hands to it, and with the WAN up the attempt proceeds. */
  lemma PlannedAttempt(e: PolicyEngine, rd: Reader, c: Settings, wan: Option<string>, x: Readings, hm: HealthMap,
                       a: Attempt)
    requires Watched(e, rd, c, wan) && Faithful(a, rd, c, hm, wan, x)
    requires !a.fileBefore.Corrupt? && HasDefault(a.before.main, wan.value)
    ensures Proceeds(a.before.main, a.fileBefore, a.desired, false)
  {
    hide GuardFirst, NeverStranded, MakeBeforeBreak, Tractable, OnlyIpv4, DesiredRoutes, Strict, WhitelistOf,
         Plannable, ReaderOk, HasDefault, ValidDesired, BuiltFrom, NothingToDo;
    var ifaces, gateway6 :| BuiltFrom(e, rd, c, ifaces, wan, gateway6);
    StrictIsManual(rd, c);
    ReadingsOnlyMoveGateways(rd, c, wan, e, a.engine, ifaces, gateway6, x.ifaces.value, x.gateway6);
    VariantPlannable(rd, c, e, a.engine, wan.value);
    AlwaysPlannable(rd, c, x.ifaces.value, a.engine, x.gateway6, wan.value);
  }

  /** The policy tables after startup: only a state file, readable or not, has them reset. */
  ghost function Remaining(t: Table, file: StateFile): Table {
    match file
    case Absent => t
    case Saved(st) => Flushed(DeleteAll(t, st.routesOwned), 52000)
    case Corrupt => Flushed(t, 52000)
  }

  /** Starts that leave no orphan: nothing there and nothing recorded, the record of a synced
      kernel, an unreadable one with all routes in the default table, or what an interrupted first
      apply of this very policy left. */
  lemma NoOrphans(t: Table, file: StateFile, e: PolicyEngine, i: nat)
    requires i <= |DesiredRoutes(e, NO_HEALTH)|
    requires match file
             case Absent => t == Install(map[], DesiredRoutes(e, NO_HEALTH)[..i])
             case Saved(st) => Synced(t, st.routesOwned) && Identified(st.routesOwned)
             case Corrupt => forall k <- t :: k.table == 52000 && k.dest.addr.fam == V4
    ensures Orphaned(Remaining(t, file), e, NO_HEALTH) == map[] && Apart(map[], e)
  {
    hide Synced, Identified, DesiredRoutes;
    if file.Saved? { RecordedResetEmpties(t, file.state.routesOwned); }
    InterruptedApplyHeals(e, NO_HEALTH, i);
  }

  lemma NoReset(h: Snapshot, file: StateFile, wan: Option<string>)
    requires file.Absent?
    ensures h.routes == Remaining(h.routes, file)
    ensures (wan.Some? && exists k <- h.main.Keys :: IsDefaultOn(h.main, k, wan.value)) ==>
              HasDefault(h.main, wan.value)
  {
  }

  lemma AfterReset(h0: Snapshot, file: StateFile, record: Option<RuntimeState>, first: Option<string>, h1: Snapshot,
                   wan: Option<string>)
    requires !file.Absent? && (record.Some? ==> file == Saved(record.value)) && (record.Some? <==> file.Saved?)
    requires h1.routes == Flushed(WithoutRecorded(h0.routes, record), 52000)
    requires h1.main == Restored(h0.main, ResetDevices(first))
    ensures h1.routes == Remaining(h0.routes, file)
    ensures (wan.Some? && exists k <- h0.main.Keys :: IsDefaultOn(h0.main, k, wan.value) && k.prio != 50) ==>
              HasDefault(h1.main, wan.value)
  {
    hide Restored, HasDefault, IsDefaultOn, DeleteAll, Flushed;
    if wan.Some? { RestoreKeepsDefaultIff(h0.main, ResetDevices(first), wan.value); }
  }

  /** A successful attempt of the loop takes over its health map, or keeps the one before. */
  lemma AttemptInStep(base: Table, e: PolicyEngine, rd: Reader, c: Settings, wan: Option<string>, x: Readings,
                      hm: HealthMap, a: Attempt, at: HealthMap)
    requires Watched(e, rd, c, wan) && Faithful(a, rd, c, hm, wan, x) && Apart(base, e)
    requires Turn(a.before, Recorded(a.fileBefore), a.after, Recorded(a.fileAfter), a.desired)
    requires InStepBeside(base, e, RuleOf(c), a.before, Recorded(a.fileBefore), at)
    ensures InStepBeside(base, e, RuleOf(c), a.after, Recorded(a.fileAfter),
                         if SameReadings(e, rd, c, wan, x) then hm else at)
  {
    hide InStepBeside, Turn, GuardFirst, NeverStranded, MakeBeforeBreak, Tractable, OnlyIpv4, DesiredRoutes, SamePins,
         Strict, WhitelistOf, Apart;
    var ifaces, gateway6 :| BuiltFrom(e, rd, c, ifaces, wan, gateway6);
    var gateway := if wan.Some? then x.gateway6 else None;
    StrictIsManual(rd, c);
    ReadingsOnlyMoveGateways(rd, c, wan, e, a.engine, ifaces, gateway6, x.ifaces.value, gateway);
    forall f | BuiltFrom(f, rd, c, x.ifaces.value, wan, gateway) ensures f == a.engine {
      BuiltOnce(f, a.engine, rd, c, x.ifaces.value, wan, gateway);
    }
    assert SameReadings(e, rd, c, wan, x) <==> SamePins(e, a.engine);
    TurnInStepBeside(base, e, a.engine, RuleOf(c), a.before, Recorded(a.fileBefore), a.after, Recorded(a.fileAfter),
                     a.desired, at, hm);
  }

  /** The first attempt of a fresh daemon proceeds, and gets in step beside the orphans. */
  lemma FirstAttemptInStep(e: PolicyEngine, rd: Reader, c: Settings, wan: Option<string>, x: Readings, hm: HealthMap,
                           a: Attempt)
    requires Watched(e, rd, c, wan) && Faithful(a, rd, c, hm, wan, x) && EngineOf(e, rd, c, wan, x)
    requires a.fileBefore.Absent? && c.tableId == 52000
    requires HasDefault(a.before.main, wan.value)
    requires Proceeds(a.before.main, a.fileBefore, a.desired, false) ==>
               Turn(a.before, Recorded(a.fileBefore), a.after, Recorded(a.fileAfter), a.desired)
    ensures InStepBeside(Orphaned(a.before.routes, e, hm), e, RuleOf(c), a.after, Recorded(a.fileAfter), hm)
  {
    hide InStepBeside, Turn, GuardFirst, NeverStranded, MakeBeforeBreak, Tractable, OnlyIpv4, DesiredRoutes, Strict,
         WhitelistOf, HasDefault, Proceeds, Plannable, ReaderOk, Orphaned;
    PlannedAttempt(e, rd, c, wan, x, hm, a);
    BuiltOnce(e, a.engine, rd, c, x.ifaces.value, wan, if wan.Some? then x.gateway6 else None);
    FirstTurnBeside(e, RuleOf(c), a.before, Recorded(a.fileBefore), a.after, Recorded(a.fileAfter), a.desired, hm);
  }

  lemma TicksProbe(c: Settings, obs: seq<Observation>)
    ensures WellFormed(TicksFor(c, obs)) && forall t <- TicksFor(c, obs), i <- t.probed :: i in ProbeList(c)
  {
    hide ProbeList;
    ProbeListDistinct(c);
  }

  lemma StrictIsManual(rd: Reader, c: Settings)
    requires Strict(rd, c)
    ensures c.mode == Manual
  {
  }

  function Others(via: seq<string>, wan: string): set<string> {
    set i <- via | i != wan
  }

  /** The devices whose default routes the probe loop takes out. */
  function LanDevices(targets: seq<TargetConfig>, wan: string): set<string> {
    set t <- targets, i <- t.via | i != wan :: i
  }

  lemma GoneAreLan(m0: MainTable, m: MainTable, targets: seq<TargetConfig>, wan: string)
    requires OnlyDefaultsGo(m0, m, LanDevices(targets, wan))
    ensures forall k | k in m0 && k.dest == DEFAULT_NET && k !in m ::
              m0[k].dev != wan && exists t <- targets :: m0[k].dev in t.via
  {
    forall k | k in m0 && k.dest == DEFAULT_NET && k !in m
      ensures m0[k].dev != wan && exists t <- targets :: m0[k].dev in t.via
    {
      assert !SameAt(m0, m, k);
    }
  }

  lemma NothingGone(m: MainTable, devs: set<string>)
    ensures OnlyDefaultsGo(m, m, devs)
  {
  }

  ghost predicate DefaultsKeptOn(m0: MainTable, m: MainTable, dev: string) {
    forall k :: IsDefaultOn(m0, k, dev) ==> IsDefaultOn(m, k, dev)
  }

  /** Probing the next interface of a distinct list changes its availability and no other's. */
  lemma RecordedStep(cfg: HealthConfig, start: HealthMap, list: seq<string>, i: nat, tick: Tick)
    requires i < |list| && forall j, k :: 0 <= j < k < |list| ==> list[j] != list[k]
    ensures var mid, next := Probed(cfg, start, list[..i], tick), Probed(cfg, start, list[..i + 1], tick);
            && next == mid[list[i] := OnProbe(cfg, HealthOf(mid, list[i]), ProbeOf(list[i], tick))]
            && ((exists n <- list[..i + 1] :: Usable(start, n) != Usable(next, n))
                <==> || (exists n <- list[..i] :: Usable(start, n) != Usable(mid, n))
                     || Usable(mid, list[i]) != Usable(next, list[i]))
  {
    hide OnProbe, IsAvailable;
    var mid, next := Probed(cfg, start, list[..i], tick), Probed(cfg, start, list[..i + 1], tick);
    assert list[..i + 1][..i] == list[..i];
    assert list[..i + 1] == list[..i] + [list[i]];
    ProbedSpec(cfg, start, list[..i], tick, list[i]);
    forall n | n in list[..i] ensures Usable(mid, n) == Usable(next, n) { }
    if n :| n in list[..i] && Usable(start, n) != Usable(mid, n) { assert n in list[..i + 1]; }
    if Usable(mid, list[i]) != Usable(next, list[i]) { assert list[i] in list[..i + 1]; }
  }

  lemma NoneAppears(m0: MainTable, m: MainTable)
    requires NoNewDefaults(m0, m)
    ensures forall dev :: HasDefault(m, dev) ==> HasDefault(m0, dev)
  {
  }

  lemma ProbeStep(cfg: HealthConfig, h: HealthView, iface: string, t: Tick)
    ensures OnProbe(cfg, h, ProbeOf(iface, t))
            == if iface in t.up then OnSuccess(cfg, h, t.now) else OnFailure(cfg, h, t.now)
  {
  }
}
