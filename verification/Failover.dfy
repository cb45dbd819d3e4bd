/** A failover is a reconciliation between the routes of one engine under two health maps.
    With distinct claims its hypotheses always hold, so it never uncovers a claimed address,
    its rollback is exact, and a clean run commits exactly when verification can see it. */
module Failover {
  import opened Net
  import opened Model
  import opened Fib
  import opened Policy
  import opened Claims
  import opened Kernel
  import opened State
  import opened Transaction
  import opened Convergence
  import opened Reconcile

  /** Claims over one block are interchangeable: one blacklist entry, or rules with the same
      block, candidates and metric, whose routes are then equal whatever they are called. */
  ghost predicate DistinctClaims(e: PolicyEngine) {
    && (forall a, b :: a in e.blacklist && b in e.blacklist && Trunc(a) == Trunc(b) ==> a == b)
    && RulesAgree(e)
    && (forall a, q, b :: a in e.blacklist && q in e.rules && b in MatcherDests(e, q.matcher) ==> Trunc(a) != Trunc(b))
  }

  ghost predicate RulesAgree(e: PolicyEngine) {
    forall p <- e.rules, q <- e.rules, a <- MatcherDests(e, p.matcher), b <- MatcherDests(e, q.matcher)
      | Trunc(a) == Trunc(b) ::
      a == b && p.candidates == q.candidates && MetricOf(p.matcher) == MetricOf(q.matcher)
  }

  ghost predicate NamedInterfaces(e: PolicyEngine) {
    && e.defaultWan != Some("")
    && forall rule <- e.rules :: "" !in rule.candidates
  }

  /** A route pins a blacklist entry or is the one its rule speaks for a block. */
  lemma RouteOrigin(e: PolicyEngine, hm: HealthMap, r: Route) returns (rule: Option<PolicyRule>)
    requires r in DesiredRoutes(e, hm)
    ensures rule.None? ==> IsBlacklistRoute(e, r) && r.destination in e.blacklist
    ensures rule.Some? ==> rule.value in e.rules && r.destination in MatcherDests(e, rule.value.matcher)
                           && r == RouteFor(e, rule.value, hm, r.destination)
  {
    hide MatcherDests, RuleRoutes, DesiredRoutes;
    DesiredRoutesSpec(e, hm, r);
    if IsBlacklistRoute(e, r) {
      rule := None;
    } else {
      var p :| p in e.rules && r in RuleRoutes(e, p, hm);
      RuleRoutesSpec(e, p, hm, r);
      rule := Some(p);
    }
  }

  /** The route of a rule depends on its candidates and its metric only. */
  lemma SameChoice(e: PolicyEngine, p: PolicyRule, q: PolicyRule, hm: HealthMap, d: Cidr)
    requires p.candidates == q.candidates && MetricOf(p.matcher) == MetricOf(q.matcher)
    ensures RouteFor(e, p, hm, d) == RouteFor(e, q, hm, d)
  {
  }

  /** Routes of the two health maps over one block differ at most in interface and type. */
  lemma SameBlockSameOrigin(e: PolicyEngine, h1: HealthMap, h2: HealthMap, a: Route, b: Route)
    requires DistinctClaims(e)
    requires a in DesiredRoutes(e, h1) && b in DesiredRoutes(e, h2)
    requires Trunc(a.destination) == Trunc(b.destination)
    ensures || (a == b && IsBlacklistRoute(e, a))
            || exists rule, d :: rule in e.rules && d in MatcherDests(e, rule.matcher)
                 && a == RouteFor(e, rule, h1, d) && b == RouteFor(e, rule, h2, d)
  {
    hide Trunc, MatcherDests, RouteFor, DesiredRoutes;
    var p := RouteOrigin(e, h1, a);
    var q := RouteOrigin(e, h2, b);
    if p.Some? && q.Some? { SameChoice(e, p.value, q.value, h2, b.destination); }
  }

  lemma MatchIsEqual(e: PolicyEngine, h1: HealthMap, h2: HealthMap, a: Route, b: Route)
    requires DistinctClaims(e) && NamedInterfaces(e)
    requires a in DesiredRoutes(e, h1) && b in DesiredRoutes(e, h2)
    requires DeleteMatches(a, KeyOf(b), HopOf(b))
    ensures a == b
  {
    hide Trunc, MatcherDests, DesiredRoutes, DistinctClaims;
    SameBlockSameOrigin(e, h1, h2, a, b);
    if !(a == b && IsBlacklistRoute(e, a)) {
      var rule, d :| rule in e.rules && d in MatcherDests(e, rule.matcher)
                     && a == RouteFor(e, rule, h1, d) && b == RouteFor(e, rule, h2, d);
    }
  }

  lemma GeneratedKeysDistinct(e: PolicyEngine, hm: HealthMap)
    requires DistinctClaims(e)
    ensures KeysDistinct(DesiredRoutes(e, hm))
  {
    var rs := DesiredRoutes(e, hm);
    DedupSpec(BlacklistRoutes(e, e.blacklist) + AllRuleRoutes(e, e.rules, hm));
    forall i, j | 0 <= i < j < |rs| ensures KeyOf(rs[i]) != KeyOf(rs[j]) {
      assert rs[i] != rs[j];
      if Trunc(rs[i].destination) == Trunc(rs[j].destination) {
        SameBlockSameOrigin(e, hm, hm, rs[i], rs[j]);
        assert false;
      }
    }
  }

  lemma GeneratedNamed(e: PolicyEngine, hm: HealthMap)
    requires NamedInterfaces(e)
    ensures NamedDevices(DesiredRoutes(e, hm))
  {
    hide MatcherDests;
    forall r | r in DesiredRoutes(e, hm) ensures r.routeType == Unicast ==> r.outputInterface != "" {
      DesiredRoutesSpec(e, hm, r);
      if !IsBlacklistRoute(e, r) {
        var rule :| rule in e.rules && r in RuleRoutes(e, rule, hm);
        RuleRoutesSpec(e, rule, hm, r);
      }
    }
  }

  /** Every failover of an engine with distinct claims satisfies what make-before-break,
      rollback and convergence ask for. */
  lemma FailoverSeparable(e: PolicyEngine, h1: HealthMap, h2: HealthMap)
    requires DistinctClaims(e) && NamedInterfaces(e)
    ensures Separable(DesiredRoutes(e, h1), DesiredRoutes(e, h2))
    ensures Tidy(DesiredRoutes(e, h1)) && Tidy(DesiredRoutes(e, h2))
    ensures !Clobbers(DesiredRoutes(e, h1), DesiredRoutes(e, h2))
  {
    hide DesiredRoutes, DeleteMatches, Clobbers, Tidy, DistinctClaims, NamedInterfaces, KeyOf, HopOf;
    var x, y := DesiredRoutes(e, h1), DesiredRoutes(e, h2);
    GeneratedKeysDistinct(e, h1);
    GeneratedKeysDistinct(e, h2);
    GeneratedNamed(e, h1);
    GeneratedNamed(e, h2);
    forall a, b | a in x + y && b in x + y && DeleteMatches(a, KeyOf(b), HopOf(b)) ensures a == b {
      MatchIsEqual(e, if a in x then h1 else h2, if b in x then h1 else h2, a, b);
    }
    IdentifiedNeverClobbers(x, y);
  }

  lemma CoverageOfClaims(e: PolicyEngine, hm: HealthMap, table: nat, ip: Addr)
    ensures CoveredBy(DesiredRoutes(e, hm), table, ip)
            <==> table == e.tableId && exists d :: ClaimedDest(e, hm, d) && Contains(d, ip)
  {
    hide RuleRoutes, MatcherDests;
    if r :| r in DesiredRoutes(e, hm) && r.table == table && Contains(r.destination, ip) {
      GeneratedTable(e, hm, r);
      assert ClaimedDest(e, hm, r.destination);
    }
    if d :| ClaimedDest(e, hm, d) && Contains(d, ip) {
      var r :| r in DesiredRoutes(e, hm) && r.destination == d;
      GeneratedTable(e, hm, r);
    }
  }

  lemma GeneratedTable(e: PolicyEngine, hm: HealthMap, r: Route)
    requires r in DesiredRoutes(e, hm)
    ensures r.table == e.tableId
  {
    DesiredRoutesSpec(e, hm, r);
    if !IsBlacklistRoute(e, r) {
      var rule :| rule in e.rules && r in RuleRoutes(e, rule, hm);
      RuleRoutesSpec(e, rule, hm, r);
    }
  }

  /** Failover never uncovers: when claims do not depend on health, a table that keeps what
      both route sets claim keeps every address either of them claims.  `MakeBeforeBreak` says
      every state of the add and remove stages is such a table. */
  lemma FailoverNeverUncovers(e: PolicyEngine, h1: HealthMap, h2: HealthMap, t: Table, table: nat, ip: Addr)
    requires forall rule <- e.rules | rule.fallback == FallWan && rule.candidates != [] ::
               forall d <- MatcherDests(e, rule.matcher) :: AlwaysClaimed(e, d)
    requires KeepsBoth(t, DesiredRoutes(e, h1), DesiredRoutes(e, h2))
    requires CoveredBy(DesiredRoutes(e, h1), table, ip) || CoveredBy(DesiredRoutes(e, h2), table, ip)
    ensures Covers(t, table, ip)
  {
    hide DesiredRoutes, MatcherDests, ClaimedDest, AlwaysClaimed, CoveredBy;
    ClaimsIndependentOfHealth(e);
    CoverageOfClaims(e, h1, table, ip);
    CoverageOfClaims(e, h2, table, ip);
  }

  /** A run without a failed command, over a synced kernel and with nothing clobbered, commits
      exactly when all desired routes are IPv4 and in the table the record already names. */
  lemma CleanRunCommitsExactly(h0: Snapshot, h1: Snapshot, st: RuntimeState, d: DesiredState, r: Reconcile.Outcome,
                               log: Log)
    requires CleanEnd(h0, h1, st, d, r, log) && Converging(h0.routes, st, d) && OneTable(d)
    ensures !RolledBack(r)
            <==> forall q <- d.routes :: q.destination.addr.fam == V4 && q.table == st.allocatedTable
  {
    hide Clobbers, AfterDiff;
    AfterDiffIsApplied(h0.routes, st, d);
    ApplyReachesDesired(st.routesOwned, d.routes);
    var t := Install(map[], d.routes);
    if forall q <- d.routes :: q.destination.addr.fam == V4 && q.table == st.allocatedTable {
      forall q | q in d.routes ensures (Trunc(q.destination), q.routeType) in Listing(t, st.allocatedTable) {
        InstallKeepsAll(map[], d.routes, q);
        assert KeyOf(q) in t.Keys;
      }
    } else {
      var q :| q in d.routes && !(q.destination.addr.fam == V4 && q.table == st.allocatedTable);
      ListedMeansVisible(d, st.allocatedTable, q);
    }
  }

  /** The same for all tidy states, clobbered or not: the run commits exactly when something of
      each desired destination and type is left in the recorded table. */
  lemma CommitsExactly(h0: Snapshot, h1: Snapshot, st: RuntimeState, d: DesiredState, r: Reconcile.Outcome,
                       log: Log)
    requires CleanEnd(h0, h1, st, d, r, log)
    requires Synced(h0.routes, st.routesOwned) && Consistent(st) && Tidy(st.routesOwned) && Tidy(d.routes)
    ensures !RolledBack(r)
            <==> forall q <- d.routes ::
                   && q.destination.addr.fam == V4
                   && LeftListed(st.routesOwned, d.routes, st.allocatedTable, Trunc(q.destination), q.routeType)
  {
    hide Tidy, AfterDiff, LeftListed, Trunc;
    AfterDiffIsApplied(h0.routes, st, d);
    ObservedExactly(st.routesOwned, d.routes, st.allocatedTable);
  }

  lemma ListedMeansVisible(d: DesiredState, table: nat, q: Route)
    requires OneTable(d) && q in d.routes
    ensures (Trunc(q.destination), q.routeType) in Listing(Install(map[], d.routes), table)
            ==> q.destination.addr.fam == V4 && q.table == table
  {
    var t := Install(map[], d.routes);
    if (Trunc(q.destination), q.routeType) in Listing(t, table) {
      var k := ListedEntry(t, table, Trunc(q.destination), q.routeType);
      var own := InstallOrigin(map[], d.routes, k);
      assert own.value.table == q.table;
    }
  }
}
