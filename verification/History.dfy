/** Many failovers in a row.  As long as no command fails, what the kernel holds after any
    number of them is what compiling the latest health map afresh would install, and the RPDB
    rule leads there; until the WAN gateway moves, which stops all failovers if anything is
    blacklisted. */
module History {
  import opened Net
  import opened Model
  import opened Seqs
  import opened Fib
  import opened Config
  import opened Health
  import opened Policy
  import opened Claims
  import opened Kernel
  import opened Planner
  import opened State
  import opened Transaction
  import opened Convergence
  import opened Reconcile
  import opened Failover
  import opened Gateways

  /** What one reconciliation without a failed command or save does to the policy tables, the
      RPDB rules and the record. */
  ghost predicate Turn(h0: Snapshot, st0: RuntimeState, h1: Snapshot, st1: RuntimeState, d: DesiredState) {
    if NothingToDo(st0, d) then h1.routes == h0.routes && h1.rules == h0.rules && st1 == st0
    else
      && h1.rules == RulesAfter(h0.rules, st0, d)
      && if Observed(AfterDiff(h0.routes, st0, d), st0.allocatedTable, d.routes)
         then h1.routes == AfterDiff(h0.routes, st0, d) && st1 == Commit(st0, d, ActiveInterfaces(d))
         else st1 == st0 && (NoDefaults(st0.routesOwned) ==> h1.routes == AfterUndo(h0.routes, st0, d))
  }

  /** The kernel holds what the record owns: a compiled route set of the engine, and no RPDB
      rule but the given one. */
  ghost predicate Steady(e: PolicyEngine, rule: RpdbRule, h: Snapshot, st: RuntimeState) {
    && Consistent(st) && Synced(h.routes, st.routesOwned)
    && (st.routesOwned == [] || exists hm: HealthMap :: st.routesOwned == DesiredRoutes(e, hm))
    && forall q <- st.rulesOwned :: q == rule && q in h.rules
  }

  ghost predicate NoDefaultClaims(e: PolicyEngine) {
    && (forall b <- e.blacklist :: b.prefix != 0)
    && forall rule <- e.rules, d <- MatcherDests(e, rule.matcher) :: d.prefix != 0
  }

  ghost predicate OnlyIpv4(e: PolicyEngine) {
    && (forall b <- e.blacklist :: b.addr.fam == V4)
    && forall rule <- e.rules, d <- MatcherDests(e, rule.matcher) :: d.addr.fam == V4
  }

  ghost predicate Tractable(e: PolicyEngine) {
    DistinctClaims(e) && NamedInterfaces(e) && NoDefaultClaims(e)
  }

  lemma RouteIsClaim(e: PolicyEngine, hm: HealthMap, r: Route)
    requires r in DesiredRoutes(e, hm)
    ensures || (e.defaultWan.Some? && r.destination in e.blacklist)
            || exists rule <- e.rules :: r.destination in MatcherDests(e, rule.matcher)
  {
    DesiredRoutesSpec(e, hm, r);
    if !IsBlacklistRoute(e, r) {
      var rule :| rule in e.rules && r in RuleRoutes(e, rule, hm);
      RuleRoutesSpec(e, rule, hm, r);
    }
  }

  /** A steady daemon can take any further health map: nothing is confused, clobbered or lost. */
  lemma SteadyConverging(e: PolicyEngine, rule: RpdbRule, h: Snapshot, st: RuntimeState, d: DesiredState, hm: HealthMap)
    requires Tractable(e) && Steady(e, rule, h, st) && d.routes == DesiredRoutes(e, hm)
    ensures Converging(h.routes, st, d) && Separable(st.routesOwned, d.routes) && Reversible(st.routesOwned, d.routes)
    ensures Synced(Install(map[], d.routes), d.routes)
  {
    hide DesiredRoutes, DistinctClaims, NamedInterfaces, Tidy, Clobbers, Install, KeysDistinct, Consistent,
         Keyed, Identified;
    FailoverSeparable(e, hm, hm);
    IdentifiedIsKeyed(st.routesOwned + d.routes);
    TidyKeys(d.routes);
    GeneratedKeysDistinct(e, hm);
    forall r | r in d.routes ensures r.destination.prefix != 0 { RouteIsClaim(e, hm, r); }
    if st.routesOwned == [] {
      FromNothing(d.routes);
    } else {
      var h0: HealthMap :| st.routesOwned == DesiredRoutes(e, h0);
      FailoverSeparable(e, h0, hm);
    }
  }

  lemma FromNothing(rs: seq<Route>)
    requires Separable(rs, rs) && Tidy(rs)
    ensures Tidy([]) && !Clobbers([], rs) && Separable([], rs)
  {
  }

  /** A quiet turn means the record already owns the desired routes and rules. */
  lemma QuietTurn(t: Table, st: RuntimeState, d: DesiredState)
    requires NothingToDo(st, d) && Converging(t, st, d)
    ensures t == Install(map[], d.routes) && forall q <- d.rules :: q in st.rulesOwned
  {
    hide ActiveInterfaces, Clobbers, Tidy, Consistent;
    AfterDiffIsApplied(t, st, d);
    ApplyReachesDesired(st.routesOwned, d.routes);
    EmptyDiffIff(ActualOf(st), d);
    var x := Diff(ActualOf(st), d);
    assert x.routesToAdd == [] && x.routesToRemove == [];
    assert AfterDiff(t, st, d) == t;
  }

  /** Every turn keeps a steady daemon steady, whether it commits or rolls back, and leaves the
      rule of the configuration in the kernel. */
  lemma TurnKeepsSteady(e: PolicyEngine, rule: RpdbRule, h0: Snapshot, st0: RuntimeState, h1: Snapshot,
                        st1: RuntimeState, d: DesiredState, hm: HealthMap)
    requires Tractable(e) && Steady(e, rule, h0, st0) && Turn(h0, st0, h1, st1, d)
    requires d.routes == DesiredRoutes(e, hm) && d.rules == [rule] && rule.table == e.tableId
    ensures Steady(e, rule, h1, st1) && rule in h1.rules
    ensures st1.allocatedTable == st0.allocatedTable || st1.allocatedTable == e.tableId
    ensures OnlyIpv4(e) && st0.allocatedTable == e.tableId ==> h1.routes == Install(map[], DesiredRoutes(e, hm))
  {
    hide DesiredRoutes, Tractable, Converging, Separable, Reversible, Synced, Install, NothingToDo, Observed,
         ActiveInterfaces, MatcherDests, OnlyIpv4, RulesAfter, AfterUndo, NoDefaults;
    SteadyConverging(e, rule, h0, st0, d, hm);
    AfterUndoRestores(h0.routes, st0, d);
    forall r | r in d.routes ensures r.table == e.tableId { GeneratedTable(e, hm, r); }
    if NothingToDo(st0, d) {
      QuietTurn(h0.routes, st0, d);
      assert rule in d.rules;
    } else {
      Arrives(h0.routes, st0, d);
      if OnlyIpv4(e) && st0.allocatedTable == e.tableId {
        Ipv4IsObserved(e, hm, d, st0.allocatedTable);
      }
      CommitConverges(st0, d, ActiveInterfaces(d), d);
      RulesAfterMember(h0.rules, st0, d, rule);
    }
  }

  lemma Arrives(t0: Table, st0: RuntimeState, d: DesiredState)
    requires Converging(t0, st0, d)
    ensures AfterDiff(t0, st0, d) == Install(map[], d.routes)
  {
    AfterDiffIsApplied(t0, st0, d);
    ApplyReachesDesired(st0.routesOwned, d.routes);
  }

  lemma Ipv4IsObserved(e: PolicyEngine, hm: HealthMap, d: DesiredState, table: nat)
    requires OnlyIpv4(e) && d.routes == DesiredRoutes(e, hm) && table == e.tableId
    requires Tractable(e)
    ensures Observed(Install(map[], d.routes), table, d.routes)
  {
    hide DesiredRoutes, DistinctClaims, MatcherDests;
    GeneratedKeysDistinct(e, hm);
    GeneratedNamed(e, hm);
    forall q | q in d.routes ensures (Trunc(q.destination), q.routeType) in Listing(Install(map[], d.routes), table) {
      RouteIsClaim(e, hm, q);
      GeneratedTable(e, hm, q);
      InstallKeepsAll(map[], d.routes, q);
      assert KeyOf(q) in Install(map[], d.routes).Keys;
    }
  }

  // ---------------------------------------------------------------- one turn, any gateway reading

  /** The record is of this engine, or there is none yet. */
  ghost predicate Anchored(e: PolicyEngine, st: RuntimeState, f: PolicyEngine) {
    st.routesOwned != [] || SamePins(e, f)
  }

  /** With a moved pin nothing happens: kernel and record stay where they are. */
  lemma MovedPinStalls(e: PolicyEngine, f: PolicyEngine, rule: RpdbRule, h0: Snapshot, st0: RuntimeState, h1: Snapshot,
                       st1: RuntimeState, d: DesiredState, hm: HealthMap)
    requires Tractable(e) && SameButGateways(e, f) && !SamePins(e, f)
    requires Steady(e, rule, h0, st0) && st0.routesOwned != [] && Turn(h0, st0, h1, st1, d)
    requires d.routes == DesiredRoutes(f, hm)
    ensures h1.routes == h0.routes && st1 == st0
  {
    hide DesiredRoutes, DistinctClaims, NamedInterfaces, NoDefaultClaims, Observed, AfterDiff, AfterUndo, Reversible,
         SamePins, KeysDistinct, ActiveInterfaces, RulesAfter, Install;
    var h: HealthMap :| st0.routesOwned == DesiredRoutes(e, h);
    var b, o, n := MovedPin(e, f, h, hm);
    EmptyDiffIff(ActualOf(st0), d);
    MovedPinNeverObserved(e, f, h, hm, st0.allocatedTable);
    AfterDiffIsApplied(h0.routes, st0, d);
    VariantsReversible(e, f, h, hm);
    AfterUndoRestores(h0.routes, st0, d);
  }

  /** Every turn leaves the daemon steady, for the recorded engine or for the one just read. */
  lemma TurnStaysSteady(e: PolicyEngine, f: PolicyEngine, rule: RpdbRule, h0: Snapshot, st0: RuntimeState, h1: Snapshot,
                        st1: RuntimeState, d: DesiredState, hm: HealthMap)
    requires Tractable(e) && SameButGateways(e, f) && Steady(e, rule, h0, st0) && Turn(h0, st0, h1, st1, d)
    requires d.routes == DesiredRoutes(f, hm) && d.rules == [rule] && rule.table == e.tableId
    ensures Steady(if Anchored(e, st0, f) then e else f, rule, h1, st1) && rule in h1.rules
    ensures st1.allocatedTable == st0.allocatedTable || st1.allocatedTable == e.tableId
  {
    hide DesiredRoutes, Tractable, Turn, SamePins;
    VariantTractable(e, f);
    if SamePins(e, f) {
      PinsDecideRoutes(e, f, hm);
      TurnKeepsSteady(e, rule, h0, st0, h1, st1, d, hm);
    } else if st0.routesOwned == [] {
      NothingOwned(e, f, rule, h0, st0);
      TurnKeepsSteady(f, rule, h0, st0, h1, st1, d, hm);
    } else {
      MovedPinStalls(e, f, rule, h0, st0, h1, st1, d, hm);
      StalledRule(e, rule, h0, st0, h1, st1, d);
    }
  }

  lemma VariantTractable(e: PolicyEngine, f: PolicyEngine)
    requires SameButGateways(e, f) && Tractable(e)
    ensures Tractable(f) && (OnlyIpv4(e) ==> OnlyIpv4(f))
  {
    hide MatcherDests, DistinctClaims, NamedInterfaces;
    VariantDistinct(e, f);
    forall rule <- e.rules { SameDests(e, f, rule.matcher); }
  }

  lemma NothingOwned(e: PolicyEngine, f: PolicyEngine, rule: RpdbRule, h: Snapshot, st: RuntimeState)
    requires Steady(e, rule, h, st) && st.routesOwned == []
    ensures Steady(f, rule, h, st)
  {
  }

  /** A turn that changes nothing still puts the rule in the kernel. */
  lemma StalledRule(e: PolicyEngine, rule: RpdbRule, h0: Snapshot, st0: RuntimeState, h1: Snapshot, st1: RuntimeState,
                    d: DesiredState)
    requires Steady(e, rule, h0, st0) && Turn(h0, st0, h1, st1, d) && d.rules == [rule]
    requires h1.routes == h0.routes && st1 == st0
    ensures Steady(e, rule, h1, st1) && rule in h1.rules
  {
    hide DesiredRoutes, Synced, Observed, AfterDiff, AfterUndo, RulesAfter, ActiveInterfaces;
    RulesAfterMember(h0.rules, st0, d, rule);
    assert rule in d.rules;
    EmptyDiffIff(ActualOf(st0), d);
  }

  /** Exactly when a failover is followed.  With IPv4 claims in the recorded table the kernel
      takes over the new health map if and only if the gateways read on this turn pin the
      blacklist as the record does; otherwise kernel and record stay as they are. */
  lemma TurnFollowsIff(e: PolicyEngine, f: PolicyEngine, rule: RpdbRule, h0: Snapshot, st0: RuntimeState, h1: Snapshot,
                       st1: RuntimeState, d: DesiredState, hm: HealthMap)
    requires Tractable(e) && OnlyIpv4(e) && SameButGateways(e, f)
    requires Steady(e, rule, h0, st0) && Anchored(e, st0, f) && st0.allocatedTable == e.tableId
    requires Turn(h0, st0, h1, st1, d)
    requires d.routes == DesiredRoutes(f, hm) && d.rules == [rule] && rule.table == e.tableId
    ensures h1.routes == Compiled(f, hm) <==> SamePins(e, f)
    ensures !SamePins(e, f) ==> h1.routes == h0.routes && st1 == st0
    ensures Steady(e, rule, h1, st1) && rule in h1.rules && st1.allocatedTable == e.tableId
    ensures st1.routesOwned == [] ==> NoPins(e)
  {
    hide DesiredRoutes, Tractable, OnlyIpv4, Turn, SamePins, NoPins, Steady;
    TurnStaysSteady(e, f, rule, h0, st0, h1, st1, d, hm);
    if SamePins(e, f) {
      PinsDecideRoutes(e, f, hm);
      TurnKeepsSteady(e, rule, h0, st0, h1, st1, d, hm);
      NothingPinned(e, rule, h1, st1, hm);
    } else {
      MovedPinStalls(e, f, rule, h0, st0, h1, st1, d, hm);
      StalledDiffers(e, f, rule, h0, st0, hm);
    }
  }

  lemma NothingPinned(e: PolicyEngine, rule: RpdbRule, h: Snapshot, st: RuntimeState, hm: HealthMap)
    requires Steady(e, rule, h, st) && h.routes == Compiled(e, hm) && Tractable(e)
    ensures st.routesOwned == [] ==> NoPins(e)
  {
    hide DistinctClaims, NamedInterfaces, NoDefaultClaims;
    PinsAreDesired(e, hm);
    if st.routesOwned == [] && DesiredRoutes(e, hm) != [] {
      GeneratedKeysDistinct(e, hm);
      InstallKeepsAll(map[], DesiredRoutes(e, hm), DesiredRoutes(e, hm)[0]);
    }
  }

  lemma StalledDiffers(e: PolicyEngine, f: PolicyEngine, rule: RpdbRule, h: Snapshot, st: RuntimeState, hm: HealthMap)
    requires Tractable(e) && SameButGateways(e, f) && !SamePins(e, f)
    requires Steady(e, rule, h, st) && st.routesOwned != []
    ensures h.routes != Compiled(f, hm)
  {
    hide DesiredRoutes, DistinctClaims, NamedInterfaces, NoDefaultClaims, Install, KeysDistinct;
    var h0: HealthMap :| st.routesOwned == DesiredRoutes(e, h0);
    MovedPinDiffers(e, f, h0, hm);
  }

  /** The input: one host routed out eth1 and one blacklisted block.  The gateway moves, eth1
      fails, and the host's traffic still goes to eth1. */
  lemma GatewayStallInput(host: Addr, b: Cidr, gateway: Option<Addr>, moved: Option<Addr>, h0: Snapshot,
                          st0: RuntimeState, h1: Snapshot, st1: RuntimeState, d: DesiredState)
    requires host.fam == V4 && b.addr.fam == V4 && b.prefix != 0 && !Contains(b, host) && gateway != moved
    requires var rule := PolicyRule("host", HostIp(host), ManualExact, ["eth1"], FallDrop);
             var e := PolicyEngine(52000, [rule], Some("wlan0"), map[], [], [b], gateway, None);
             var up: HealthMap := map["eth1" := DEFAULT_HEALTH.(state := Healthy)];
             var none: HealthMap := map[];
             && Steady(e, RpdbRule(12000, 52000), h0, st0) && st0.routesOwned == DesiredRoutes(e, up)
             && Turn(h0, st0, h1, st1, d) && d.routes == DesiredRoutes(e.(wanGateway := moved), none)
    ensures var none: HealthMap := map[];
            && !Usable(none, "eth1") && st1 == st0
            && Installed(h1.routes, Route(HostNet(host), "eth1", None, 52000, Some(50), Unicast))
  {
    hide Steady, Turn, DesiredRoutes, Install, Contains, KeysDistinct;
    var rule := PolicyRule("host", HostIp(host), ManualExact, ["eth1"], FallDrop);
    var e := PolicyEngine(52000, [rule], Some("wlan0"), map[], [], [b], gateway, None);
    var up: HealthMap := map["eth1" := DEFAULT_HEALTH.(state := Healthy)];
    var none: HealthMap := map[];
    OneHostTractable(host, b, e, rule);
    assert b in e.blacklist;
    DesiredRoutesSpec(e, up, BlacklistRoute(e, "wlan0", b));
    MovedPinStalls(e, e.(wanGateway := moved), RpdbRule(12000, 52000), h0, st0, h1, st1, d, none);
    var r := RouteFor(e, rule, up, HostNet(host));
    RuleRoutesSpec(e, rule, up, r);
    DesiredRoutesSpec(e, up, r);
    assert FirstAvailable(rule.candidates, up) == Some("eth1") by { assert rule.candidates[0] in rule.candidates; }
    SteadyInstalled(e, RpdbRule(12000, 52000), h0, st0, r);
  }

  lemma SteadyInstalled(e: PolicyEngine, rule: RpdbRule, h: Snapshot, st: RuntimeState, r: Route)
    requires Steady(e, rule, h, st) && r in st.routesOwned
    ensures Installed(h.routes, r)
  {
    InstallKeepsAll(map[], st.routesOwned, r);
  }

  lemma OneHostTractable(host: Addr, b: Cidr, e: PolicyEngine, rule: PolicyRule)
    requires b.prefix != 0 && !Contains(b, host) && rule.matcher == HostIp(host) && rule.candidates == ["eth1"]
    requires e.rules == [rule] && e.blacklist == [b] && e.defaultWan == Some("wlan0")
    ensures Tractable(e)
  {
    hide Contains, Trunc;
    TruncSameMembers(b, host);
    TruncSameMembers(HostNet(host), host);
    HostNetHoldsOne(host, host);
    assert MatcherDests(e, rule.matcher) == [HostNet(host)];
  }

  // ---------------------------------------------------------------- whole runs

  /** Between two turns the main table and the filters may change: a turn and steadiness speak
      about routes and rules only. */
  lemma TurnReadsRoutesAndRules(e: PolicyEngine, rule: RpdbRule, h0: Snapshot, h: Snapshot, st0: RuntimeState,
                                h1: Snapshot, st1: RuntimeState, d: DesiredState)
    requires h.routes == h0.routes && h.rules == h0.rules
    ensures Steady(e, rule, h, st0) <==> Steady(e, rule, h0, st0)
    ensures Turn(h, st0, h1, st1, d) <==> Turn(h0, st0, h1, st1, d)
  {
    hide Synced, NothingToDo, Observed, RulesAfter, Commit, AfterDiff, AfterUndo, DesiredRoutes, Consistent;
  }

  /** One clean reconciliation per health map, each with the engine of its own readings. */
  ghost predicate Failovers(e: PolicyEngine, rule: RpdbRule, es: seq<PolicyEngine>, hms: seq<HealthMap>,
                            ds: seq<DesiredState>, hs: seq<Snapshot>, sts: seq<RuntimeState>)
  {
    && |es| == |ds| == |hms| && |hs| == |sts| == |hms| + 1
    && rule.table == e.tableId
    && forall i :: 0 <= i < |hms| ==>
         && SameButGateways(e, es[i])
         && ds[i].routes == DesiredRoutes(es[i], hms[i]) && ds[i].rules == [rule]
         && Turn(hs[i], sts[i], hs[i + 1], sts[i + 1], ds[i])
  }

  /** Whatever the gateway readings and the address families, kernel and record stay in step. */
  lemma {:induction false} StaysSteady(e: PolicyEngine, rule: RpdbRule, es: seq<PolicyEngine>, hms: seq<HealthMap>,
                                       ds: seq<DesiredState>, hs: seq<Snapshot>, sts: seq<RuntimeState>, n: nat)
    returns (f: PolicyEngine)
    requires Tractable(e) && Failovers(e, rule, es, hms, ds, hs, sts) && Steady(e, rule, hs[0], sts[0]) && n <= |hms|
    ensures SameButGateways(e, f) && Steady(f, rule, hs[n], sts[n])
    ensures sts[n].allocatedTable == sts[0].allocatedTable || sts[n].allocatedTable == e.tableId
    ensures n > 0 ==> rule in hs[n].rules
  {
    hide Tractable, Steady, Turn, DesiredRoutes, Anchored;
    f := e;
    if n > 0 {
      var g := StaysSteady(e, rule, es, hms, ds, hs, sts, n - 1);
      VariantTractable(e, g);
      TurnStaysSteady(g, es[n - 1], rule, hs[n - 1], sts[n - 1], hs[n], sts[n], ds[n - 1], hms[n - 1]);
      f := if Anchored(g, sts[n - 1], es[n - 1]) then g else es[n - 1];
    }
  }

  /** The start of a run that can be followed: the record is of this engine, in its table. */
  ghost predicate Ready(e: PolicyEngine, rule: RpdbRule, es: seq<PolicyEngine>, h: Snapshot, st: RuntimeState) {
    Steady(e, rule, h, st) && st.allocatedTable == e.tableId && (es != [] ==> Anchored(e, st, es[0]))
  }

  /** The last of the first n turns that read the recorded gateways. */
  ghost function LastFollowed(e: PolicyEngine, es: seq<PolicyEngine>, n: nat): (m: Option<nat>)
    requires n <= |es|
    ensures m.Some? ==> m.value < n && SamePins(e, es[m.value])
    ensures forall i :: 0 <= i < n && SamePins(e, es[i]) ==> m.Some? && i <= m.value
  {
    if n == 0 then None else if SamePins(e, es[n - 1]) then Some(n - 1) else LastFollowed(e, es, n - 1)
  }

  /** History independence, exactly.  Along any run of failovers without a failed command, with
      IPv4 claims in the recorded table, the kernel holds the routes compiled from the current
      health map alone if and only if the current gateways pin the blacklist as the record does.
      At any time it holds those of the last map for which they did. */
  lemma {:induction false} HistoryExactly(e: PolicyEngine, rule: RpdbRule, es: seq<PolicyEngine>, hms: seq<HealthMap>,
                                          ds: seq<DesiredState>, hs: seq<Snapshot>, sts: seq<RuntimeState>, n: nat)
    requires Tractable(e) && OnlyIpv4(e) && Failovers(e, rule, es, hms, ds, hs, sts) && n <= |hms|
    requires Ready(e, rule, es, hs[0], sts[0])
    ensures Steady(e, rule, hs[n], sts[n]) && sts[n].allocatedTable == e.tableId
    ensures n > 0 ==> rule in hs[n].rules && (sts[n].routesOwned == [] ==> NoPins(e))
    ensures n > 0 ==> (hs[n].routes == Compiled(es[n - 1], hms[n - 1]) <==> SamePins(e, es[n - 1]))
    ensures hs[n].routes == match LastFollowed(e, es, n)
                            case Some(m) => Compiled(es[m], hms[m])
                            case None => hs[0].routes
  {
    hide Tractable, Steady, Turn, DesiredRoutes, OnlyIpv4, SamePins, Compiled;
    if n > 0 {
      HistoryExactly(e, rule, es, hms, ds, hs, sts, n - 1);
      UnpinnedIsAnchored(e, es[n - 1]);
      TurnFollowsIff(e, es[n - 1], rule, hs[n - 1], sts[n - 1], hs[n], sts[n], ds[n - 1], hms[n - 1]);
    }
  }

  lemma UnpinnedIsAnchored(e: PolicyEngine, f: PolicyEngine)
    ensures NoPins(e) ==> SamePins(e, f)
  {
  }

  /** In a table compiled by one engine every entry is in its table, so its rule comes first, for
      IPv4: there is no rule for IPv6. */
  lemma CompiledIsConsulted(e: PolicyEngine, rule: RpdbRule, hm: HealthMap, s: Snapshot, ip: Addr)
    requires s.routes == Compiled(e, hm) && rule in s.rules && rule.table == e.tableId
    ensures Consulted(s, e.tableId, ip) <==> ip.fam == V4
  {
    hide Contains;
    forall k | k in s.routes ensures k.table == e.tableId {
      var own := InstallOrigin(map[], DesiredRoutes(e, hm), k);
      GeneratedTable(e, hm, own.value);
    }
    assert forall o <- s.rules :: o.table != e.tableId ==> !Covers(s.routes, o.table, ip);
  }

  /** The strict policy over a whole life: after every failover of a run the kernel consults the
      policy table for every IPv4 address, and for no other, and the table answers as the policy
      says for the last health map that came with the recorded gateways; for the current one if
      these do. */
  lemma PolicyServedThroughout(rd: Reader, c: Settings, ifaces: seq<Interface>, e: PolicyEngine, gateway6: Option<Addr>,
                               wan: string, es: seq<PolicyEngine>, hms: seq<HealthMap>, ds: seq<DesiredState>,
                               hs: seq<Snapshot>, sts: seq<RuntimeState>, n: nat, ip: Addr)
    requires ReaderOk(rd) && Strict(rd, c) && NamesServable(rd, c, e)
    requires BuiltFrom(e, rd, c, ifaces, Some(wan), gateway6) && Tractable(e) && OnlyIpv4(e)
    requires Failovers(e, RpdbRule(c.rulePriority, c.tableId), es, hms, ds, hs, sts) && n <= |hms|
    requires Ready(e, RpdbRule(c.rulePriority, c.tableId), es, hs[0], sts[0])
    requires LastFollowed(e, es, n).Some?
    ensures RpdbRule(c.rulePriority, c.tableId) in hs[n].rules && (Consulted(hs[n], c.tableId, ip) <==> ip.fam == V4)
    ensures Serves(rd, c, e, wan, hms[LastFollowed(e, es, n).value], hs[n].routes, ip)
    ensures SamePins(e, es[n - 1]) ==> LastFollowed(e, es, n) == Some(n - 1)
  {
    hide Tractable, OnlyIpv4, Steady, Turn, DesiredRoutes, Serves, Strict, NamesServable, ReaderOk,
         Consulted, Compiled, SamePins, Ready;
    var rule := RpdbRule(c.rulePriority, c.tableId);
    var m := LastFollowed(e, es, n).value;
    HistoryExactly(e, rule, es, hms, ds, hs, sts, n);
    SameCompiled(e, es[m], hms[m]);
    CompiledIsConsulted(e, rule, hms[m], hs[n], ip);
    Trichotomy(rd, c, ifaces, e, gateway6, wan, hms[m], ip);
  }

  lemma SameCompiled(e: PolicyEngine, f: PolicyEngine, hm: HealthMap)
    requires SameButGateways(e, f) && SamePins(e, f)
    ensures Compiled(f, hm) == Compiled(e, hm)
  {
    PinsDecideRoutes(e, f, hm);
  }

  // ---------------------------------------------------------------- in step with a health map

  /** The kernel holds what one health map compiles to, the record owns it, and the rule leads there. */
  ghost predicate InStep(e: PolicyEngine, rule: RpdbRule, h: Snapshot, st: RuntimeState, hm: HealthMap) {
    && Steady(e, rule, h, st) && h.routes == Compiled(e, hm) && rule in h.rules && st.allocatedTable == e.tableId
    && (st.routesOwned == [] ==> NoPins(e))
  }

  /** A turn takes over the new map if it reads the recorded gateways, and else keeps the old one. */
  lemma TurnInStep(e: PolicyEngine, f: PolicyEngine, rule: RpdbRule, h0: Snapshot, st0: RuntimeState, h1: Snapshot,
                   st1: RuntimeState, d: DesiredState, at: HealthMap, hm: HealthMap)
    requires Tractable(e) && OnlyIpv4(e) && SameButGateways(e, f)
    requires InStep(e, rule, h0, st0, at) && Turn(h0, st0, h1, st1, d)
    requires d.routes == DesiredRoutes(f, hm) && d.rules == [rule] && rule.table == e.tableId
    ensures InStep(e, rule, h1, st1, if SamePins(e, f) then hm else at)
  {
    hide Tractable, OnlyIpv4, Steady, Turn, DesiredRoutes, Compiled, SamePins, NoPins;
    UnpinnedIsAnchored(e, f);
    TurnFollowsIff(e, f, rule, h0, st0, h1, st1, d, hm);
    if SamePins(e, f) { SameCompiled(e, f, hm); }
  }

  /** From nothing owned the first turn gets in step. */
  lemma FirstTurnInStep(e: PolicyEngine, rule: RpdbRule, h0: Snapshot, st0: RuntimeState, h1: Snapshot,
                        st1: RuntimeState, d: DesiredState, hm: HealthMap)
    requires Tractable(e) && OnlyIpv4(e) && rule.table == e.tableId
    requires h0.routes == map[] && st0 == DEFAULT_STATE && e.tableId == DEFAULT_STATE.allocatedTable
    requires Turn(h0, st0, h1, st1, d) && d.routes == DesiredRoutes(e, hm) && d.rules == [rule]
    ensures InStep(e, rule, h1, st1, hm)
  {
    hide Tractable, OnlyIpv4, Turn, DesiredRoutes, Compiled, NoPins;
    assert Steady(e, rule, h0, st0);
    TurnFollowsIff(e, e, rule, h0, st0, h1, st1, d, hm);
  }

  lemma InStepStays(e: PolicyEngine, rule: RpdbRule, h0: Snapshot, h: Snapshot, st: RuntimeState, at: HealthMap,
                    hm: HealthMap)
    requires InStep(e, rule, h0, st, at) && h.routes == h0.routes && h.rules == h0.rules
    requires forall i :: Usable(at, i) == Usable(hm, i)
    ensures InStep(e, rule, h, st, at) && InStep(e, rule, h, st, hm)
  {
    hide Steady, DesiredRoutes, Turn, Usable;
    TurnReadsRoutesAndRules(e, rule, h0, h, st, h, st, DesiredState([], [], [], None, [], []));
    UsableDecidesRoutes(e, at, hm);
  }

  lemma {:induction false} UsableDecidesIndex(cands: seq<string>, h1: HealthMap, h2: HealthMap)
    requires forall i :: Usable(h1, i) == Usable(h2, i)
    ensures AvailableIndex(cands, h1) == AvailableIndex(cands, h2)
  {
    if cands != [] { UsableDecidesIndex(cands[1..], h1, h2); }
  }

  /** Health reaches the routes only through which interfaces are usable. */
  lemma UsableDecidesRoutes(e: PolicyEngine, h1: HealthMap, h2: HealthMap)
    requires forall i :: Usable(h1, i) == Usable(h2, i)
    ensures DesiredRoutes(e, h1) == DesiredRoutes(e, h2)
  {
    hide Usable, MatcherDests, Dedup;
    forall r <- e.rules ensures RuleRoutes(e, r, h1) == RuleRoutes(e, r, h2) {
      UsableDecidesIndex(r.candidates, h1, h2);
    }
    FlatMapSame(e.rules, (r: PolicyRule) => RuleRoutes(e, r, h1), (r: PolicyRule) => RuleRoutes(e, r, h2));
  }

  /** In step means the strict policy is served for that map, to IPv4. */
  lemma InStepServes(rd: Reader, c: Settings, ifaces: seq<Interface>, e: PolicyEngine, gateway6: Option<Addr>,
                     wan: string, h: Snapshot, st: RuntimeState, hm: HealthMap, ip: Addr)
    requires ReaderOk(rd) && Strict(rd, c) && NamesServable(rd, c, e)
    requires BuiltFrom(e, rd, c, ifaces, Some(wan), gateway6)
    requires InStep(e, RpdbRule(c.rulePriority, c.tableId), h, st, hm)
    ensures (Consulted(h, c.tableId, ip) <==> ip.fam == V4) && Serves(rd, c, e, wan, hm, h.routes, ip)
  {
    hide Steady, DesiredRoutes, Serves, Strict, NamesServable, ReaderOk, Consulted, Compiled;
    CompiledIsConsulted(e, RpdbRule(c.rulePriority, c.tableId), hm, h, ip);
    Trichotomy(rd, c, ifaces, e, gateway6, wan, hm, ip);
  }
}
