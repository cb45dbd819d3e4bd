/** The WAN gateways are read anew on every turn.  Engines of one configuration differ in them
    alone; whether that matters depends on the blacklist, whose routes carry them. */
module Gateways {
  import opened Net
  import opened Model
  import opened Seqs
  import opened Config
  import opened Policy
  import opened Fib
  import opened Claims
  import opened Convergence
  import opened Reconcile
  import opened Failover

  /** What one configuration builds from different readings. */
  ghost predicate SameButGateways(e: PolicyEngine, f: PolicyEngine) {
    f == e.(wanGateway := f.wanGateway, wanGateway6 := f.wanGateway6)
  }

  /** In manual mode the interface readings reach nothing but the gateways. */
  lemma ReadingsOnlyMoveGateways(rd: Reader, c: Settings, wan: Option<string>, e: PolicyEngine, f: PolicyEngine,
                                 ifaces: seq<Interface>, gateway6: Option<Addr>, ifaces': seq<Interface>,
                                 gateway6': Option<Addr>)
    requires c.mode == Manual
    requires BuiltFrom(e, rd, c, ifaces, wan, gateway6) && BuiltFrom(f, rd, c, ifaces', wan, gateway6')
    ensures SameButGateways(e, f)
  {
    BuiltOnce(e, f.(wanGateway := e.wanGateway, wanGateway6 := e.wanGateway6), rd, c, ifaces, wan, gateway6);
  }

  function PinGateway(e: PolicyEngine, b: Cidr): Option<Addr> {
    if b.addr.fam == V4 then e.wanGateway else e.wanGateway6
  }

  /** Both readings pin the blacklist to the same gateways. */
  ghost predicate SamePins(e: PolicyEngine, f: PolicyEngine) {
    e.defaultWan.Some? ==> forall b <- e.blacklist :: PinGateway(e, b) == PinGateway(f, b)
  }

  /** Nothing is pinned at all. */
  predicate NoPins(e: PolicyEngine) {
    e.defaultWan.None? || e.blacklist == []
  }

  lemma SamePinsIff(e: PolicyEngine, f: PolicyEngine)
    ensures SamePins(e, f)
            <==> || e.defaultWan.None?
                 || (((exists b <- e.blacklist :: b.addr.fam == V4) ==> e.wanGateway == f.wanGateway)
                     && ((exists b <- e.blacklist :: b.addr.fam == V6) ==> e.wanGateway6 == f.wanGateway6))
  {
  }

  // ---------------------------------------------------------------- routes that do not depend on gateways

  lemma {:induction false} SameSuffixNets(e: PolicyEngine, f: PolicyEngine, suffix: string, names: seq<string>)
    requires SameButGateways(e, f)
    ensures SuffixNets(f, suffix, names) == SuffixNets(e, suffix, names)
  {
    if names != [] { SameSuffixNets(e, f, suffix, names[..|names| - 1]); }
  }

  lemma SameDests(e: PolicyEngine, f: PolicyEngine, m: TargetMatcher)
    requires SameButGateways(e, f)
    ensures MatcherDests(f, m) == MatcherDests(e, m)
  {
    if m.DomainSuffix? { SameSuffixNets(e, f, PolicyCanonical(m.suffix), e.dnsOrder); }
  }

  lemma SameRuleRoutes(e: PolicyEngine, f: PolicyEngine, rule: PolicyRule, hm: HealthMap)
    requires SameButGateways(e, f)
    ensures RuleRoutes(f, rule, hm) == RuleRoutes(e, rule, hm)
  {
    hide MatcherDests;
    SameDests(e, f, rule.matcher);
  }

  /** Equal pins, equal routes, for every health map. */
  lemma PinsDecideRoutes(e: PolicyEngine, f: PolicyEngine, hm: HealthMap)
    requires SameButGateways(e, f) && SamePins(e, f)
    ensures DesiredRoutes(f, hm) == DesiredRoutes(e, hm)
  {
    hide RuleRoutes, Dedup;
    forall r <- e.rules { SameRuleRoutes(e, f, r, hm); }
    FlatMapSame(e.rules, (r: PolicyRule) => RuleRoutes(f, r, hm), (r: PolicyRule) => RuleRoutes(e, r, hm));
    if e.defaultWan.Some? {
      FlatMapSame(e.blacklist, (b: Cidr) => [BlacklistRoute(f, f.defaultWan.value, b)],
                  (b: Cidr) => [BlacklistRoute(e, e.defaultWan.value, b)]);
    }
  }

  /** What distinguishes claims does not depend on gateways. */
  lemma VariantDistinct(e: PolicyEngine, f: PolicyEngine)
    requires SameButGateways(e, f) && DistinctClaims(e) && NamedInterfaces(e)
    ensures DistinctClaims(f) && NamedInterfaces(f)
  {
    hide MatcherDests, Trunc;
    forall rule <- e.rules { SameDests(e, f, rule.matcher); }
  }

  /** A rule's route is desired under either reading. */
  lemma RuleRouteCarries(e: PolicyEngine, f: PolicyEngine, hm: HealthMap, r: Route)
    requires SameButGateways(e, f) && r in DesiredRoutes(f, hm) && !IsBlacklistRoute(f, r)
    ensures r in DesiredRoutes(e, hm)
  {
    hide RuleRoutes, DesiredRoutes;
    DesiredRoutesSpec(f, hm, r);
    DesiredRoutesSpec(e, hm, r);
    var rule :| rule in f.rules && r in RuleRoutes(f, rule, hm);
    SameRuleRoutes(e, f, rule, hm);
  }

  /** Over a blacklisted block the only route is the pin. */
  lemma PinnedBlock(e: PolicyEngine, hm: HealthMap, b: Cidr, r: Route)
    requires DistinctClaims(e) && e.defaultWan.Some? && b in e.blacklist
    requires r in DesiredRoutes(e, hm) && Trunc(r.destination) == Trunc(b)
    ensures r == BlacklistRoute(e, e.defaultWan.value, b)
  {
    hide Trunc, MatcherDests, DesiredRoutes;
    var rule := RouteOrigin(e, hm, r);
  }

  // ---------------------------------------------------------------- a turn with another gateway

  /** Deletions never reach past their key, whatever the two readings are. */
  lemma VariantsReversible(e: PolicyEngine, f: PolicyEngine, h1: HealthMap, h2: HealthMap)
    requires SameButGateways(e, f) && DistinctClaims(e) && NamedInterfaces(e)
    ensures Reversible(DesiredRoutes(e, h1), DesiredRoutes(f, h2))
  {
    hide DesiredRoutes, DistinctClaims, NamedInterfaces, DeleteMatches, KeyOf, HopOf;
    var x, y := DesiredRoutes(e, h1), DesiredRoutes(f, h2);
    VariantDistinct(e, f);
    forall a, b | a in x + y && b in x + y && DeleteMatches(a, KeyOf(b), HopOf(b)) ensures KeyOf(a) == KeyOf(b) {
      MatchHasSameKey(e, if a in x then e else f, if b in x then e else f, if a in x then h1 else h2,
                      if b in x then h1 else h2, a, b);
    }
  }

  lemma MatchHasSameKey(e: PolicyEngine, p: PolicyEngine, q: PolicyEngine, h1: HealthMap, h2: HealthMap, a: Route,
                        b: Route)
    requires SameButGateways(e, p) && SameButGateways(e, q) && DistinctClaims(e) && NamedInterfaces(e)
    requires a in DesiredRoutes(p, h1) && b in DesiredRoutes(q, h2) && DeleteMatches(a, KeyOf(b), HopOf(b))
    ensures KeyOf(a) == KeyOf(b)
  {
    hide Trunc, MatcherDests, DesiredRoutes, DistinctClaims, NamedInterfaces;
    VariantDistinct(e, p);
    VariantDistinct(e, q);
    if IsBlacklistRoute(p, a) {
      PinnedBlock(q, h2, a.destination, b);
    } else if IsBlacklistRoute(q, b) {
      PinnedBlock(p, h1, b.destination, a);
    } else {
      RuleRouteCarries(e, p, h1, a);
      RuleRouteCarries(e, q, h2, b);
      MatchIsEqual(e, h1, h2, a, b);
    }
  }

  /** The pin that moved: installed under the recorded reading, wanted with another gateway. */
  lemma MovedPin(e: PolicyEngine, f: PolicyEngine, h1: HealthMap, h2: HealthMap) returns (b: Cidr, o: Route, n: Route)
    requires SameButGateways(e, f) && DistinctClaims(e) && NamedInterfaces(e) && !SamePins(e, f)
    ensures e.defaultWan.Some? && b in e.blacklist
    ensures o == BlacklistRoute(e, e.defaultWan.value, b) && n == o.(gateway := n.gateway) && n.gateway != o.gateway
    ensures o in DesiredRoutes(e, h1) && o !in DesiredRoutes(f, h2)
    ensures n in DesiredRoutes(f, h2) && n !in DesiredRoutes(e, h1)
    ensures forall r | (r in DesiredRoutes(e, h1) || r in DesiredRoutes(f, h2)) && Trunc(r.destination) == Trunc(b) ::
              r == o || r == n
  {
    hide Trunc, MatcherDests, DesiredRoutes, DistinctClaims, NamedInterfaces;
    VariantDistinct(e, f);
    b :| b in e.blacklist && PinGateway(e, b) != PinGateway(f, b);
    o, n := BlacklistRoute(e, e.defaultWan.value, b), BlacklistRoute(f, e.defaultWan.value, b);
    DesiredRoutesSpec(e, h1, o);
    DesiredRoutesSpec(f, h2, n);
    forall r | r in DesiredRoutes(e, h1) && Trunc(r.destination) == Trunc(b) ensures r == o {
      PinnedBlock(e, h1, b, r);
    }
    forall r | r in DesiredRoutes(f, h2) && Trunc(r.destination) == Trunc(b) ensures r == n {
      PinnedBlock(f, h2, b, r);
    }
  }

  /** With a moved pin no clean run commits, whatever the health map says. */
  lemma MovedPinNeverObserved(e: PolicyEngine, f: PolicyEngine, h1: HealthMap, h2: HealthMap, table: nat)
    requires SameButGateways(e, f) && DistinctClaims(e) && NamedInterfaces(e) && !SamePins(e, f)
    ensures !Observed(Applied(DesiredRoutes(e, h1), DesiredRoutes(f, h2)), table, DesiredRoutes(f, h2))
  {
    hide DesiredRoutes, DistinctClaims, NamedInterfaces, Tidy, Applied, Observed, Clobbers, Trunc, SamePins;
    var b, o, n := MovedPin(e, f, h1, h2);
    VariantDistinct(e, f);
    FailoverSeparable(e, h1, h1);
    FailoverSeparable(f, h2, h2);
    GatewayChangeNeverObserved(DesiredRoutes(e, h1), DesiredRoutes(f, h2), o, n.gateway, table);
  }

  /** And the two tables differ. */
  lemma MovedPinDiffers(e: PolicyEngine, f: PolicyEngine, h1: HealthMap, h2: HealthMap)
    requires SameButGateways(e, f) && DistinctClaims(e) && NamedInterfaces(e) && !SamePins(e, f)
    ensures Compiled(e, h1) != Compiled(f, h2)
  {
    hide DesiredRoutes, DistinctClaims, NamedInterfaces, Trunc, SamePins, Install;
    var b, o, n := MovedPin(e, f, h1, h2);
    VariantDistinct(e, f);
    GeneratedKeysDistinct(e, h1);
    GeneratedKeysDistinct(f, h2);
    InstallKeepsAll(map[], DesiredRoutes(e, h1), o);
    InstallKeepsAll(map[], DesiredRoutes(f, h2), n);
    assert KeyOf(o) == KeyOf(n) && HopOf(o) != HopOf(n);
  }

  /** A pin is desired whenever there is anything to pin. */
  lemma PinsAreDesired(e: PolicyEngine, hm: HealthMap)
    ensures DesiredRoutes(e, hm) == [] ==> NoPins(e)
  {
    if !NoPins(e) {
      var b := e.blacklist[0];
      DesiredRoutesSpec(e, hm, BlacklistRoute(e, e.defaultWan.value, b));
    }
  }
}
