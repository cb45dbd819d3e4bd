/** From a strict configuration to the desired state, and what a committed run means for
    packets: routing and filtering of one configuration, side by side. */
module Pipeline {
  import opened Net
  import opened Model
  import opened Text
  import opened Seqs
  import opened Config
  import opened Health
  import opened Policy
  import opened Fib
  import opened Claims
  import opened Netfilter
  import opened Kernel
  import opened Planner
  import opened State
  import opened Stages
  import opened Reconcile
  import opened Failover
  import opened Gateways
  import opened History

  function TargetAllowances(rd: Reader, t: TargetConfig): seq<Allowance> {
    FlatMap(t.via, (i: string) => [Allowance(i, ParseNetOnly(rd, t.cidr), None)])
  }

  function AddressAllowances(ips: seq<Addr>, iface: string): seq<Allowance> {
    FlatMap(ips, (a: Addr) => [Allowance(iface, Some(HostNet(a)), None)])
  }

  function DomainAllowances(c: Settings, d: string): seq<Allowance> {
    if Resolve(c, d).None? then []
    else FlatMap(c.lanInterfaces, (i: string) => AddressAllowances(Resolve(c, d).value, i))
  }

  /** The whitelist `execute_apply` collects: every target on each of its interfaces, every
      static answer of a LAN domain on every LAN interface. */
  function WhitelistOf(rd: Reader, c: Settings): seq<Allowance> {
    FlatMap(c.targets, (t: TargetConfig) => TargetAllowances(rd, t))
    + FlatMap(c.lanDomains, (d: string) => DomainAllowances(c, d))
  }

  function WanOf(c: Settings, defaultWan: Option<string>): Option<string> {
    if defaultWan.Some? then defaultWan
    else if c.wanInterfaces != [] then Some(c.wanInterfaces[0]) else None
  }

  function DesiredFor(rd: Reader, c: Settings, routes: seq<Route>, defaultWan: Option<string>): DesiredState {
    DesiredState(routes, [RpdbRule(c.rulePriority, c.tableId)], WhitelistOf(rd, c), WanOf(c, defaultWan),
                 c.lanInterfaces, c.blacklist)
  }

  method CollectWhitelist(rd: Reader, c: Settings) returns (ws: seq<Allowance>)
    ensures ws == WhitelistOf(rd, c)
  {
    hide TargetAllowances, DomainAllowances, FlatMap;
    var forTargets := CollectTargetAllowances(rd, c.targets);
    var forDomains := CollectDomainAllowances(c);
    ws := forTargets + forDomains;
  }

  method CollectDomainAllowances(c: Settings) returns (ws: seq<Allowance>)
    ensures ws == FlatMap(c.lanDomains, (d: string) => DomainAllowances(c, d))
  {
    hide DomainAllowances;
    ws := [];
    ghost var g := (d: string) => DomainAllowances(c, d);
    for i := 0 to |c.lanDomains|
      invariant ws == FlatMap(c.lanDomains[..i], g)
    {
      FlatMapStep(c.lanDomains, g, i);
      var more := CollectDomain(c, c.lanDomains[i]);
      ws := ws + more;
    }
    FullSlice(c.lanDomains);
  }

  method CollectTargetAllowances(rd: Reader, ts: seq<TargetConfig>) returns (ws: seq<Allowance>)
    ensures ws == FlatMap(ts, (t: TargetConfig) => TargetAllowances(rd, t))
  {
    ws := [];
    ghost var f := (t: TargetConfig) => TargetAllowances(rd, t);
    for i := 0 to |ts|
      invariant ws == FlatMap(ts[..i], f)
    {
      FlatMapStep(ts, f, i);
      ghost var before := ws;
      var t := ts[i];
      ghost var g := (n: string) => [Allowance(n, ParseNetOnly(rd, t.cidr), None)];
      for j := 0 to |t.via|
        invariant ws == before + FlatMap(t.via[..j], g)
      {
        FlatMapStep(t.via, g, j);
        ws := ws + [Allowance(t.via[j], ParseNetOnly(rd, t.cidr), None)];
      }
      FullSlice(t.via);
    }
    FullSlice(ts);
  }

  method CollectDomain(c: Settings, d: string) returns (ws: seq<Allowance>)
    ensures ws == DomainAllowances(c, d)
  {
    ws := [];
    var addresses := Resolve(c, d);
    if addresses.None? { return; }
    ghost var f := (i: string) => AddressAllowances(addresses.value, i);
    for i := 0 to |c.lanInterfaces|
      invariant ws == FlatMap(c.lanInterfaces[..i], f)
    {
      FlatMapStep(c.lanInterfaces, f, i);
      ghost var before := ws;
      var n := c.lanInterfaces[i];
      ghost var g := (a: Addr) => [Allowance(n, Some(HostNet(a)), None)];
      for j := 0 to |addresses.value|
        invariant ws == before + FlatMap(addresses.value[..j], g)
      {
        FlatMapStep(addresses.value, g, j);
        ws := ws + [Allowance(n, Some(HostNet(addresses.value[j])), None)];
      }
      FullSlice(addresses.value);
    }
    FullSlice(c.lanInterfaces);
  }

  // ---------------------------------------------------------------- what the filter admits

  /** The interface's chain has an entry for the address: a target written as a network on one
      of its interfaces, or a static answer on a LAN interface. */
  predicate AdmitsIp(rd: Reader, c: Settings, iface: string, ip: Addr) {
    || (exists t <- c.targets :: iface in t.via && ParseNetOnly(rd, t.cidr).Some?
                                 && Contains(ParseNetOnly(rd, t.cidr).value, ip))
    || (iface in c.lanInterfaces && DomainClaims(c, ip))
  }

  lemma WhitelistMember(rd: Reader, c: Settings, a: Allowance)
    ensures a in WhitelistOf(rd, c)
            <==> || (exists t <- c.targets ::
                       a.iface in t.via && a == Allowance(a.iface, ParseNetOnly(rd, t.cidr), None))
                 || (exists d <- c.lanDomains :: a in DomainAllowances(c, d))
  {
    FlatMapMember(c.targets, (t: TargetConfig) => TargetAllowances(rd, t), a);
    FlatMapMember(c.lanDomains, (d: string) => DomainAllowances(c, d), a);
    forall t: TargetConfig ensures a in TargetAllowances(rd, t)
                     <==> a.iface in t.via && a == Allowance(a.iface, ParseNetOnly(rd, t.cidr), None)
    {
      FlatMapMember(t.via, (i: string) => [Allowance(i, ParseNetOnly(rd, t.cidr), None)], a);
    }
  }

  lemma DomainAllowanceMember(c: Settings, d: string, a: Allowance)
    ensures a in DomainAllowances(c, d)
            <==> && Resolve(c, d).Some? && a.iface in c.lanInterfaces
                 && exists ip <- Resolve(c, d).value :: a == Allowance(a.iface, Some(HostNet(ip)), None)
  {
    if Resolve(c, d).Some? {
      var ips := Resolve(c, d).value;
      FlatMapMember(c.lanInterfaces, (i: string) => AddressAllowances(ips, i), a);
      forall i: string ensures a in AddressAllowances(ips, i)
                       <==> a.iface == i && exists ip <- ips :: a == Allowance(i, Some(HostNet(ip)), None)
      {
        FlatMapMember(ips, (x: Addr) => [Allowance(i, Some(HostNet(x)), None)], a);
      }
    }
  }

  lemma WhitelistForMember(ws: seq<Allowance>, iface: string, net: Option<Cidr>, port: Option<nat>)
    ensures (net, port) in WhitelistFor(ws, iface) <==> Allowance(iface, net, port) in ws
  {
    FlatMapMember(ws, (a: Allowance) => WhitelistEntry(a, iface), (net, port));
    if (net, port) in WhitelistFor(ws, iface) {
      var a :| a in ws && (net, port) in WhitelistEntry(a, iface);
      assert a == Allowance(iface, net, port);
    }
  }

  /** The allow list admits exactly the packets to admitted addresses, on every port. */
  lemma AllowedIsAdmitted(rd: Reader, c: Settings, iface: string, p: Packet)
    ensures Allowed(WhitelistFor(WhitelistOf(rd, c), iface), p) <==> AdmitsIp(rd, c, iface, p.dst)
  {
    var ws := WhitelistOf(rd, c);
    if a :| a in WhitelistFor(ws, iface) && Admits(a, p) {
      WhitelistForMember(ws, iface, a.0, a.1);
      WhitelistMember(rd, c, Allowance(iface, a.0, a.1));
      if d :| d in c.lanDomains && Allowance(iface, a.0, a.1) in DomainAllowances(c, d) {
        DomainAllowanceMember(c, d, Allowance(iface, a.0, a.1));
        var ip :| ip in Resolve(c, d).value && Allowance(iface, a.0, a.1) == Allowance(iface, Some(HostNet(ip)), None);
        HostNetHoldsOne(ip, p.dst);
      }
    }
    if t :| t in c.targets && iface in t.via && ParseNetOnly(rd, t.cidr).Some?
            && Contains(ParseNetOnly(rd, t.cidr).value, p.dst) {
      AdmittedBy(rd, c, iface, Allowance(iface, ParseNetOnly(rd, t.cidr), None), p);
    }
    if iface in c.lanInterfaces && DomainClaims(c, p.dst) {
      var d :| d in c.lanDomains && Resolve(c, d).Some? && p.dst in Resolve(c, d).value;
      DomainAllowanceMember(c, d, Allowance(iface, Some(HostNet(p.dst)), None));
      HostNetHoldsOne(p.dst, p.dst);
      AdmittedBy(rd, c, iface, Allowance(iface, Some(HostNet(p.dst)), None), p);
    }
  }

  lemma AdmittedBy(rd: Reader, c: Settings, iface: string, a: Allowance, p: Packet)
    requires a.iface == iface && a.net.Some? && a.port.None? && Contains(a.net.value, p.dst)
    requires || (exists t <- c.targets :: iface in t.via && a == Allowance(iface, ParseNetOnly(rd, t.cidr), None))
             || (exists d <- c.lanDomains :: a in DomainAllowances(c, d))
    ensures Allowed(WhitelistFor(WhitelistOf(rd, c), iface), p)
  {
    WhitelistMember(rd, c, a);
    WhitelistForMember(WhitelistOf(rd, c), iface, a.net, a.port);
    assert Admits((a.net, a.port), p);
  }

  /** A target written as a network is admitted on each of its interfaces. */
  lemma StrictTargetAdmitted(rd: Reader, t: TargetConfig)
    requires ReaderOk(rd) && ParseIpNet(rd, t.cidr).Some?
    ensures ParseNetOnly(rd, t.cidr) == if rd(t.cidr).NetText? then ParseIpNet(rd, t.cidr) else None
  {
  }

  // ---------------------------------------------------------------- the planner's verdict

  ghost predicate HasDefaultNet(rd: Reader, c: Settings, e: PolicyEngine) {
    || (exists b <- c.blacklist :: b.prefix == 0)
    || (exists t <- c.targets :: ParseIpNet(rd, t.cidr).Some? && ParseIpNet(rd, t.cidr).value.prefix == 0)
    || (exists rule, dest :: NameRule(rd, c, rule) && dest in MatcherDests(e, rule.matcher) && dest.prefix == 0)
  }

  /** Under this health map a name goes out a LAN interface into the blacklist. */
  ghost predicate NameClashes(rd: Reader, c: Settings, e: PolicyEngine, hm: HealthMap) {
    exists rule, dest :: NameRule(rd, c, rule) && dest in MatcherDests(e, rule.matcher)
      && FirstAvailable(rule.candidates, hm).Some? && FirstAvailable(rule.candidates, hm).value in c.lanInterfaces
      && exists b <- c.blacklist :: Overlap(b, dest)
  }

  /** A name with a LAN interface to go out by resolves into the blacklist. */
  ghost predicate MayClash(rd: Reader, c: Settings, e: PolicyEngine) {
    exists rule, dest :: NameRule(rd, c, rule) && dest in MatcherDests(e, rule.matcher)
      && (exists i <- rule.candidates :: i in c.lanInterfaces) && exists b <- c.blacklist :: Overlap(b, dest)
  }

  lemma FitNeverClashes(rd: Reader, c: Settings, e: PolicyEngine)
    requires NamesFit(rd, c, e) && e.blacklist == c.blacklist
    ensures !MayClash(rd, c, e)
  {
    hide NameRule, MatcherDests, FirstAvailable, Overlap, Contains, RuleCovers, Blacklisted;
    forall rule, dest, b | NameRule(rd, c, rule) && dest in MatcherDests(e, rule.matcher) && b in c.blacklist
      ensures !Overlap(b, dest)
    {
      OverlapIffCommonAddress(b, dest);
      if ip: Addr :| Contains(b, ip) && Contains(dest, ip) {
        CommonIsCovered(e, rule, dest, b, ip);
        assert false;
      }
    }
  }

  lemma CommonIsCovered(e: PolicyEngine, rule: PolicyRule, dest: Cidr, b: Cidr, ip: Addr)
    requires dest in MatcherDests(e, rule.matcher) && b in e.blacklist && Contains(b, ip) && Contains(dest, ip)
    ensures RuleCovers(e, rule, ip) && Blacklisted(e, ip)
  {
  }

  lemma TargetRouteClear(rd: Reader, c: Settings, e: PolicyEngine, t: TargetConfig, rule: PolicyRule, dest: Cidr)
    requires ReaderOk(rd) && TargetStrict(rd, c, t)
    requires rule in TargetRule(rd, t) && dest in MatcherDests(e, rule.matcher)
    ensures forall b <- c.blacklist :: !Overlap(b, dest)
  {
    StrictTargetRule(rd, c, t);
    var net := ParseIpNet(rd, t.cidr).value;
    assert MatcherDests(e, MatcherOfNet(net)) == [if net.prefix == Width(net.addr.fam) then HostNet(net.addr) else net];
    assert dest == net;
  }

  lemma RuleRouteSafe(rd: Reader, c: Settings, ifaces: seq<Interface>, e: PolicyEngine, gateway6: Option<Addr>,
                      wan: string, hm: HealthMap, d: DesiredState, rule: PolicyRule, r: Route)
    requires ReaderOk(rd) && Strict(rd, c)
    requires BuiltFrom(e, rd, c, ifaces, Some(wan), gateway6)
    requires d.lanInterfaces == c.lanInterfaces && d.blacklist == c.blacklist
    requires rule in e.rules && r in RuleRoutes(e, rule, hm)
    requires !HasDefaultNet(rd, c, e) && !NameClashes(rd, c, e, hm)
    ensures SafeRoute(d, r)
  {
    hide ParseIpNet, MatcherDests, Strict, ReaderOk, Overlap, TargetRule, NameRule, FirstAvailable;
    RuleRoutesSpec(e, rule, hm, r);
    var dest :| dest in MatcherDests(e, rule.matcher) && r == RouteFor(e, rule, hm, dest);
    if dest.prefix == 0 { StrictRuleDests(rd, c, ifaces, e, gateway6, wan, rule, dest); }
    StrictRules(rd, c, ifaces, rule);
    if t :| t in c.targets && rule in TargetRule(rd, t) {
      IsStrictTarget(rd, c, t);
      TargetRouteClear(rd, c, e, t, rule, dest);
    }
  }

  lemma IsStrictTarget(rd: Reader, c: Settings, t: TargetConfig)
    requires Strict(rd, c) && t in c.targets
    ensures TargetStrict(rd, c, t)
  {
  }

  lemma StrictRuleDests(rd: Reader, c: Settings, ifaces: seq<Interface>, e: PolicyEngine, gateway6: Option<Addr>,
                        wan: string, rule: PolicyRule, dest: Cidr)
    requires ReaderOk(rd) && Strict(rd, c)
    requires BuiltFrom(e, rd, c, ifaces, Some(wan), gateway6)
    requires rule in e.rules && dest in MatcherDests(e, rule.matcher) && dest.prefix == 0
    ensures HasDefaultNet(rd, c, e)
  {
    hide MatcherDests, TargetRule, ParseIpNet, ReaderOk, TargetStrict, NameRule;
    StrictRules(rd, c, ifaces, rule);
    if t :| t in c.targets && rule in TargetRule(rd, t) { ZeroTarget(rd, c, e, t, rule, dest); }
  }

  lemma ZeroTarget(rd: Reader, c: Settings, e: PolicyEngine, t: TargetConfig, rule: PolicyRule, dest: Cidr)
    requires ReaderOk(rd) && TargetStrict(rd, c, t)
    requires rule in TargetRule(rd, t) && dest in MatcherDests(e, rule.matcher)
    ensures ParseIpNet(rd, t.cidr).Some? && dest.prefix == ParseIpNet(rd, t.cidr).value.prefix
  {
    StrictTargetRule(rd, c, t);
    var net := ParseIpNet(rd, t.cidr).value;
    assert MatcherDests(e, MatcherOfNet(net)) == [if net.prefix == Width(net.addr.fam) then HostNet(net.addr) else net];
  }

  lemma ZeroTargetRouted(rd: Reader, c: Settings, ifaces: seq<Interface>, e: PolicyEngine, gateway6: Option<Addr>,
                         wan: string, hm: HealthMap, t: TargetConfig) returns (r: Route)
    requires ReaderOk(rd) && Strict(rd, c)
    requires BuiltFrom(e, rd, c, ifaces, Some(wan), gateway6)
    requires t in c.targets && ParseIpNet(rd, t.cidr).Some? && ParseIpNet(rd, t.cidr).value.prefix == 0
    ensures r in DesiredRoutes(e, hm) && r.destination.prefix == 0
  {
    StrictTargetRule(rd, c, t);
    var rule := TargetRule(rd, t)[0];
    var net := ParseIpNet(rd, t.cidr).value;
    assert MatcherDests(e, rule.matcher) == [net];
    hide ParseIpNet, MatcherDests;
    StrictRules(rd, c, ifaces, rule);
    r := RouteFor(e, rule, hm, net);
    RuleRoutesSpec(e, rule, hm, r);
    DesiredRoutesSpec(e, hm, r);
  }

  lemma NameRouted(rd: Reader, c: Settings, ifaces: seq<Interface>, e: PolicyEngine, gateway6: Option<Addr>,
                   wan: string, hm: HealthMap, rule: PolicyRule, dest: Cidr)
    requires ReaderOk(rd) && Strict(rd, c)
    requires BuiltFrom(e, rd, c, ifaces, Some(wan), gateway6)
    requires NameRule(rd, c, rule) && dest in MatcherDests(e, rule.matcher)
    ensures RouteFor(e, rule, hm, dest) in DesiredRoutes(e, hm)
  {
    hide MatcherDests, NameRule;
    StrictRules(rd, c, ifaces, rule);
    NameRuleDrops(rd, c, rule);
    RuleRoutesSpec(e, rule, hm, RouteFor(e, rule, hm, dest));
    DesiredRoutesSpec(e, hm, RouteFor(e, rule, hm, dest));
  }

  /** Which strict configurations the planner accepts under which health map: exactly those
      without a zero-length network, whose WAN, if anything is blacklisted, is not also declared
      a LAN interface, and none of whose names then goes out the LAN into the blacklist. */
  lemma StrictPlannable(rd: Reader, c: Settings, ifaces: seq<Interface>, e: PolicyEngine, gateway6: Option<Addr>,
                        wan: string, hm: HealthMap)
    requires ReaderOk(rd) && Strict(rd, c)
    requires BuiltFrom(e, rd, c, ifaces, Some(wan), gateway6)
    ensures ValidDesired(DesiredFor(rd, c, DesiredRoutes(e, hm), Some(wan)))
            <==> && !HasDefaultNet(rd, c, e) && (c.blacklist != [] ==> wan !in c.lanInterfaces)
                 && !NameClashes(rd, c, e, hm)
  {
    hide WhitelistOf, Contains, Overlap, ReaderOk, Strict, HasDefaultNet, NameClashes, RuleRoutes, MatcherDests,
         DesiredRoutes;
    var rs := DesiredRoutes(e, hm);
    var d := DesiredFor(rd, c, rs, Some(wan));
    if !HasDefaultNet(rd, c, e) && (c.blacklist != [] ==> wan !in c.lanInterfaces) && !NameClashes(rd, c, e, hm) {
      forall r | r in rs ensures SafeRoute(d, r) {
        DesiredRoutesSpec(e, hm, r);
        if IsBlacklistRoute(e, r) {
          LongBlacklist(rd, c, e);
        } else {
          var rule :| rule in e.rules && r in RuleRoutes(e, rule, hm);
          RuleRouteSafe(rd, c, ifaces, e, gateway6, wan, hm, d, rule, r);
        }
      }
    } else {
      var r := OffendingRoute(rd, c, ifaces, e, gateway6, wan, hm);
    }
  }

  /** No health map can make the planner refuse. */
  ghost predicate Plannable(rd: Reader, c: Settings, e: PolicyEngine, wan: string) {
    !HasDefaultNet(rd, c, e) && (c.blacklist != [] ==> wan !in c.lanInterfaces) && !MayClash(rd, c, e)
  }

  /** A strict configuration is accepted under every health map if and only if it is plannable;
      with fitting names that leaves the zero-length networks and the blacklist's WAN. */
  lemma AlwaysPlannable(rd: Reader, c: Settings, ifaces: seq<Interface>, e: PolicyEngine, gateway6: Option<Addr>,
                        wan: string)
    requires ReaderOk(rd) && Strict(rd, c)
    requires BuiltFrom(e, rd, c, ifaces, Some(wan), gateway6)
    ensures (forall hm: HealthMap :: ValidDesired(DesiredFor(rd, c, DesiredRoutes(e, hm), Some(wan))))
            <==> Plannable(rd, c, e, wan)
    ensures NamesFit(rd, c, e) ==>
              (Plannable(rd, c, e, wan)
               <==> !HasDefaultNet(rd, c, e) && (c.blacklist != [] ==> wan !in c.lanInterfaces))
  {
    hide ReaderOk, Strict, HasDefaultNet, NameClashes, DesiredRoutes, ValidDesired, MayClash, NamesFit, WhitelistOf;
    forall hm: HealthMap
      ensures ValidDesired(DesiredFor(rd, c, DesiredRoutes(e, hm), Some(wan)))
              <==> && !HasDefaultNet(rd, c, e) && (c.blacklist != [] ==> wan !in c.lanInterfaces)
                   && !NameClashes(rd, c, e, hm)
    {
      StrictPlannable(rd, c, ifaces, e, gateway6, wan, hm);
    }
    var hm := ClashingHealth(rd, c, e);
    var d := DesiredFor(rd, c, DesiredRoutes(e, hm), Some(wan));
    assert Plannable(rd, c, e, wan) <==> ValidDesired(d);
    if NamesFit(rd, c, e) { FitNeverClashes(rd, c, e); }
  }

  /** The health map under which a name that may clash does. */
  lemma ClashingHealth(rd: Reader, c: Settings, e: PolicyEngine) returns (hm: HealthMap)
    ensures MayClash(rd, c, e) ==> NameClashes(rd, c, e, hm)
    ensures forall any: HealthMap :: NameClashes(rd, c, e, any) ==> MayClash(rd, c, e)
  {
    hide NameRule, MatcherDests, Overlap;
    hm := map[];
    if MayClash(rd, c, e) {
      var rule, dest :| NameRule(rd, c, rule) && dest in MatcherDests(e, rule.matcher)
        && (exists i <- rule.candidates :: i in c.lanInterfaces) && exists b <- c.blacklist :: Overlap(b, dest);
      var i :| i in rule.candidates && i in c.lanInterfaces;
      hm := map[i := DEFAULT_HEALTH.(state := Healthy)];
      assert Usable(hm, i) && forall j :: Usable(hm, j) ==> j == i;
      assert FirstAvailable(rule.candidates, hm) == Some(i);
    }
  }

  /** Gateway readings have no say in it. */
  lemma VariantPlannable(rd: Reader, c: Settings, e: PolicyEngine, f: PolicyEngine, wan: string)
    requires SameButGateways(e, f)
    ensures Plannable(rd, c, e, wan) <==> Plannable(rd, c, f, wan)
  {
    hide NameRule, MatcherDests, Overlap, ParseIpNet;
    forall rule: PolicyRule ensures MatcherDests(f, rule.matcher) == MatcherDests(e, rule.matcher) {
      SameDests(e, f, rule.matcher);
    }
  }

  lemma LongBlacklist(rd: Reader, c: Settings, e: PolicyEngine)
    requires !HasDefaultNet(rd, c, e)
    ensures forall b <- c.blacklist :: b.prefix != 0
  {
  }

  lemma OffendingRoute(rd: Reader, c: Settings, ifaces: seq<Interface>, e: PolicyEngine, gateway6: Option<Addr>,
                       wan: string, hm: HealthMap) returns (r: Route)
    requires ReaderOk(rd) && Strict(rd, c)
    requires BuiltFrom(e, rd, c, ifaces, Some(wan), gateway6)
    requires HasDefaultNet(rd, c, e) || (c.blacklist != [] && wan in c.lanInterfaces) || NameClashes(rd, c, e, hm)
    ensures var d := DesiredFor(rd, c, DesiredRoutes(e, hm), Some(wan));
            r in d.routes && !SafeRoute(d, r)
  {
    hide ParseIpNet, MatcherDests, NameRule, Strict, ReaderOk, DesiredRoutes, Overlap, Contains, WhitelistOf;
    if b :| b in c.blacklist && (b.prefix == 0 || wan in c.lanInterfaces) {
      r := BlacklistRoute(e, wan, b);
      DesiredRoutesSpec(e, hm, r);
      ContainsOwnAddress(b);
      OverlapIffCommonAddress(b, b);
    } else if t :| t in c.targets && ParseIpNet(rd, t.cidr).Some? && ParseIpNet(rd, t.cidr).value.prefix == 0 {
      r := ZeroTargetRouted(rd, c, ifaces, e, gateway6, wan, hm, t);
    } else {
      if c.blacklist != [] { assert c.blacklist[0] in c.blacklist; }
      r := OffendingName(rd, c, ifaces, e, gateway6, wan, hm);
    }
  }

  lemma OffendingName(rd: Reader, c: Settings, ifaces: seq<Interface>, e: PolicyEngine, gateway6: Option<Addr>,
                      wan: string, hm: HealthMap) returns (r: Route)
    requires ReaderOk(rd) && Strict(rd, c)
    requires BuiltFrom(e, rd, c, ifaces, Some(wan), gateway6)
    requires || NameClashes(rd, c, e, hm)
             || exists rule, dest :: NameRule(rd, c, rule) && dest in MatcherDests(e, rule.matcher) && dest.prefix == 0
    ensures var d := DesiredFor(rd, c, DesiredRoutes(e, hm), Some(wan));
            r in d.routes && !SafeRoute(d, r)
  {
    hide ParseIpNet, MatcherDests, NameRule, Strict, ReaderOk, DesiredRoutes, Overlap, Contains, WhitelistOf;
    var rule, dest :| NameRule(rd, c, rule) && dest in MatcherDests(e, rule.matcher)
      && (dest.prefix == 0
          || (FirstAvailable(rule.candidates, hm).Some? && FirstAvailable(rule.candidates, hm).value in c.lanInterfaces
              && exists b <- c.blacklist :: Overlap(b, dest)));
    NameRouted(rd, c, ifaces, e, gateway6, wan, hm, rule, dest);
    r := RouteFor(e, rule, hm, dest);
  }

  // ---------------------------------------------------------------- routing meets filtering

  /** Strict, with plain host names and with every target written as a network. */
  ghost predicate Plainly(rd: Reader, c: Settings) {
    ReaderOk(rd) && Strict(rd, c) && PlainDomains(rd, c) && forall t <- c.targets :: rd(t.cidr).NetText?
  }

  /** Where the kernel sends a non-blacklisted address out a LAN interface, the interface's
      chain lets a packet to it pass exactly when it is established, DHCP, ICMP, or admitted; with
      nothing whitelisted at all the routes themselves are admitted.  Targets written as networks
      and static answers are admitted; a bare address and a network's domain are not. */
  lemma RoutedPacketVerdict(rd: Reader, c: Settings, ifaces: seq<Interface>, e: PolicyEngine, gateway6: Option<Addr>,
                            wan: string, hm: HealthMap, p: Packet)
    requires BuiltFrom(e, rd, c, ifaces, Some(wan), gateway6) && !Blacklisted(e, p.dst)
    ensures var w := Lookup(Compiled(e, hm), c.tableId, p.dst);
            var d := DesiredFor(rd, c, DesiredRoutes(e, hm), Some(wan));
            w.Some? && Compiled(e, hm)[w.value].rtype == Unicast ==>
              var iface := Compiled(e, hm)[w.value].dev;
              && (ChainVerdict(PlanFor(d, iface, p.dst.fam), p)
                  == Some(if p.established || IsDhcp(p) || p.proto == (if p.dst.fam == V6 then IcmpV6 else Icmp)
                             || WhitelistOf(rd, c) == [] || AdmitsIp(rd, c, iface, p.dst) then Accept else Drop))
              && (Plainly(rd, c) && !NetworkClaims(rd, c, e, p.dst) ==> AdmitsIp(rd, c, iface, p.dst))
  {
    hide DesiredRoutes, Compiled, ChainVerdict, Plan, IsDhcp, AdmitsIp, Blacklisted, ReaderOk, Strict, PlainDomains,
         NetworkClaims, Contains, WhitelistOf, Allowed;
    var w := Lookup(Compiled(e, hm), c.tableId, p.dst);
    if w.Some? && Compiled(e, hm)[w.value].rtype == Unicast {
      var d := DesiredFor(rd, c, DesiredRoutes(e, hm), Some(wan));
      var iface := Compiled(e, hm)[w.value].dev;
      if Plainly(rd, c) && !NetworkClaims(rd, c, e, p.dst) {
        UnicastOwner(rd, c, ifaces, e, gateway6, wan, hm, p.dst, w.value);
      }
      if d.firewallWhitelist != [] {
        AllowedIsAdmitted(rd, c, iface, p);
      } else {
        RouteAdmits(e, hm, w.value, p);
      }
      PlanVerdict(AllowFor(d, iface), d.blacklist, p.dst.fam == V6, p);
      NotBlocked(e, c, p);
    }
  }

  /** Without a whitelist the destinations of an interface's routes are admitted. */
  lemma RouteAdmits(e: PolicyEngine, hm: HealthMap, k: RouteKey, p: Packet)
    requires k in Compiled(e, hm) && Contains(k.dest, p.dst) && Compiled(e, hm)[k].rtype == Unicast
    ensures Allowed(RoutesFor(DesiredRoutes(e, hm), Compiled(e, hm)[k].dev), p)
  {
    hide DesiredRoutes, Contains;
    var iface := Compiled(e, hm)[k].dev;
    var own := InstallOrigin(map[], DesiredRoutes(e, hm), k);
    var r := own.value;
    TruncSameMembers(r.destination, p.dst);
    FlatMapMember(DesiredRoutes(e, hm), (x: Route) => RouteEntry(x, iface), (Some(r.destination), None));
    assert Admits((Some(r.destination), None), p);
  }

  lemma NotBlocked(e: PolicyEngine, c: Settings, p: Packet)
    requires e.blacklist == c.blacklist
    ensures Blacklisted(e, p.dst) <==> exists n <- c.blacklist :: Contains(n, p.dst)
  {
  }

  /** The rule behind a unicast winner admits the address, whenever its target is written as a
      network. */
  lemma UnicastOwner(rd: Reader, c: Settings, ifaces: seq<Interface>, e: PolicyEngine, gateway6: Option<Addr>,
                     wan: string, hm: HealthMap, ip: Addr, k: RouteKey)
    requires ReaderOk(rd) && Strict(rd, c) && PlainDomains(rd, c) && !NetworkClaims(rd, c, e, ip)
    requires BuiltFrom(e, rd, c, ifaces, Some(wan), gateway6) && !Blacklisted(e, ip)
    requires k in Compiled(e, hm) && Contains(k.dest, ip) && Compiled(e, hm)[k].rtype == Unicast
    ensures (forall t <- c.targets :: rd(t.cidr).NetText?) ==> AdmitsIp(rd, c, Compiled(e, hm)[k].dev, ip)
  {
    hide Compiled, Contains, WhitelistOf, AdmitsIp, Strict, Blacklisted, RuleCovers, ParseIpNet, LanDomainRule,
         TargetRule, NetworkRules, MatcherDests, PlainDomains;
    var r, rule := EntryOrigin(e, hm, ip, k);
    var dev := Compiled(e, hm)[k].dev;
    assert dev in rule.value.candidates;
    StrictRules(rd, c, ifaces, rule.value);
    if t :| t in c.targets && rule.value in TargetRule(rd, t) {
      TargetMarks(rd, c, e, t, rule.value, dev, ip);
    } else {
      assert !exists n <- c.networks :: rule.value in NetworkRules(rd, n, n.domains);
      var name :| name in c.lanDomains && rule.value in LanDomainRule(rd, c, name);
      DomainMarks(rd, c, e, name, rule.value, dev, ip);
    }
  }

  lemma TargetMarks(rd: Reader, c: Settings, e: PolicyEngine, t: TargetConfig, rule: PolicyRule, dev: string, ip: Addr)
    requires ReaderOk(rd) && Strict(rd, c) && t in c.targets
    requires rule in TargetRule(rd, t) && dev in rule.candidates && RuleCovers(e, rule, ip)
    ensures WhitelistOf(rd, c) != []
    ensures rd(t.cidr).NetText? ==> AdmitsIp(rd, c, dev, ip)
  {
    hide Contains, WhitelistOf, MatcherOfNet;
    StrictTargetRule(rd, c, t);
    StrictTargetAdmitted(rd, t);
    MatcherOfNetDests(e, ParseIpNet(rd, t.cidr).value, ip);
    WhitelistMember(rd, c, Allowance(dev, ParseNetOnly(rd, t.cidr), None));
  }

  lemma DomainMarks(rd: Reader, c: Settings, e: PolicyEngine, name: string, rule: PolicyRule, dev: string, ip: Addr)
    requires Strict(rd, c) && PlainDomains(rd, c) && name in c.lanDomains && e.localDns == c.localDns
    requires rule in LanDomainRule(rd, c, name) && dev in rule.candidates && RuleCovers(e, rule, ip)
    ensures WhitelistOf(rd, c) != [] && AdmitsIp(rd, c, dev, ip)
  {
    hide Contains, WhitelistOf;
    StrictDomainRule(rd, c, e, name, ip);
    DomainAllowanceMember(c, name, Allowance(dev, Some(HostNet(ip)), None));
    WhitelistMember(rd, c, Allowance(dev, Some(HostNet(ip)), None));
  }

  // ---------------------------------------------------------------- end to end

  /** The whole pipeline, end to end.  After a clean commit of the state compiled from a strict
      configuration, the kernel's own table answers every lookup as the policy says; and the
      rule that leads there is in the kernel unless the record owned it and the kernel had
      lost it, in which case the planner trusts the record. */
  lemma CommittedPolicy(rd: Reader, c: Settings, ifaces: seq<Interface>, e: PolicyEngine, gateway6: Option<Addr>,
                        wan: string, hm: HealthMap, h0: Snapshot, h1: Snapshot, st: RuntimeState, ip: Addr)
    requires ReaderOk(rd) && Strict(rd, c) && NamesServable(rd, c, e)
    requires BuiltFrom(e, rd, c, ifaces, Some(wan), gateway6)
    requires var d := DesiredFor(rd, c, DesiredRoutes(e, hm), Some(wan));
             CleanCommit(h0, h1, st, d) && Converging(h0.routes, st, d)
    ensures Serves(rd, c, e, wan, hm, h1.routes, ip)
    ensures var rule := RpdbRule(c.rulePriority, c.tableId);
            && (rule in h1.rules <==> rule !in st.rulesOwned || rule in h0.rules)
            && (rule in h1.rules ==> (Consulted(h1, c.tableId, ip) <==> ip.fam == V4))
  {
    hide WhitelistOf, Converging, CleanCommit, DesiredRoutes, Serves, Strict, NamesServable, ReaderOk,
         BuiltFrom, Consulted, RulesAfter;
    var d := DesiredFor(rd, c, DesiredRoutes(e, hm), Some(wan));
    var rule := RpdbRule(c.rulePriority, c.tableId);
    CleanCommitConverges(h0, h1, st, d);
    assert h1.routes == Compiled(e, hm);
    Trichotomy(rd, c, ifaces, e, gateway6, wan, hm, ip);
    CommittedRules(h0, h1, st, d, rule);
    assert rule in d.rules;
    BuiltTable(e, rd, c, ifaces, wan, gateway6);
    if rule in h1.rules { CompiledIsConsulted(e, rule, hm, h1, ip); }
  }

  lemma CommittedRules(h0: Snapshot, h1: Snapshot, st: RuntimeState, d: DesiredState, q: RpdbRule)
    requires CleanCommit(h0, h1, st, d) && q in d.rules
    ensures q in h1.rules <==> q !in st.rulesOwned || q in h0.rules
  {
    RulesAfterMember(h0.rules, st, d, q);
  }

  lemma BuiltTable(e: PolicyEngine, rd: Reader, c: Settings, ifaces: seq<Interface>, wan: string,
                   gateway6: Option<Addr>)
    requires BuiltFrom(e, rd, c, ifaces, Some(wan), gateway6)
    ensures e.tableId == c.tableId
  {
  }

  // ---------------------------------------------------------------- over a whole life

  function NetOf(rd: Reader, t: TargetConfig): Option<Cidr> {
    ParseIpNet(rd, t.cidr)
  }

  /** Blacklist entries, and targets, over one block are written alike and go the same way; one
      host on several ports qualifies. */
  ghost predicate OneWayPerBlock(rd: Reader, c: Settings) {
    && (forall a <- c.blacklist, b <- c.blacklist :: Trunc(a) == Trunc(b) ==> a == b)
    && (forall t <- c.targets, u <- c.targets | NetOf(rd, t).Some? && NetOf(rd, u).Some?
          && Trunc(NetOf(rd, t).value) == Trunc(NetOf(rd, u).value) :: NetOf(rd, t) == NetOf(rd, u) && t.via == u.via)
  }

  /** A name goes the same way as whatever else claims one of its blocks. */
  ghost predicate NamesAgree(rd: Reader, c: Settings, e: PolicyEngine) {
    forall q, p, a, b | NameRule(rd, c, q) && (NameRule(rd, c, p) || exists t <- c.targets :: p in TargetRule(rd, t))
      && a in MatcherDests(e, p.matcher) && b in MatcherDests(e, q.matcher) && Trunc(a) == Trunc(b) ::
      SameWay(p, q, a, b)
  }

  predicate SameWay(p: PolicyRule, q: PolicyRule, a: Cidr, b: Cidr) {
    a == b && p.candidates == q.candidates && MetricOf(p.matcher) == MetricOf(q.matcher)
  }

  lemma TargetRuleDest(rd: Reader, c: Settings, e: PolicyEngine, t: TargetConfig, rule: PolicyRule, dest: Cidr)
    requires ReaderOk(rd) && TargetStrict(rd, c, t)
    requires rule in TargetRule(rd, t) && dest in MatcherDests(e, rule.matcher)
    ensures NetOf(rd, t) == Some(dest) && rule.candidates == t.via && rule.matcher == MatcherOfNet(dest)
  {
    StrictTargetRule(rd, c, t);
    var net := ParseIpNet(rd, t.cidr).value;
    assert MatcherDests(e, MatcherOfNet(net)) == [if net.prefix == Width(net.addr.fam) then HostNet(net.addr) else net];
    assert dest == net;
  }

  lemma DomainRuleDest(rd: Reader, c: Settings, e: PolicyEngine, d: string, rule: PolicyRule, dest: Cidr)
    requires PlainName(d) && rd(d).NotNumeric? && DomainStrict(c, d) && e.localDns == c.localDns
    requires rule in LanDomainRule(rd, c, d) && dest in MatcherDests(e, rule.matcher)
    ensures dest.addr in Resolve(c, d).value && dest == HostNet(dest.addr)
    ensures rule.candidates == c.lanInterfaces && rule.matcher.Domain?
  {
    StrictDomainRule(rd, c, e, d, dest.addr);
    CanonicalFormsAgree(rd, d);
    assert MatcherDests(e, rule.matcher) == HostNets(Resolve(c, d).value);
    var i :| 0 <= i < |Resolve(c, d).value| && HostNets(Resolve(c, d).value)[i] == dest;
    assert dest.addr == Resolve(c, d).value[i];
  }

  lemma HostBlocks(a: Cidr, b: Cidr)
    requires Trunc(a) == Trunc(b) && b == HostNet(b.addr)
    ensures a == b
  {
    assert Size(a) == Size(b) == 1;
  }

  /** Where a target is also a domain's answer, it uses all LAN interfaces, as the domain does.
      Targets that an environment file makes from host names are like that. */
  ghost predicate AnswersAgree(rd: Reader, c: Settings) {
    forall t <- c.targets, d <- c.lanDomains | NetOf(rd, t).Some? && Resolve(c, d).Some?
      && NetOf(rd, t).value.prefix == Width(NetOf(rd, t).value.addr.fam)
      && NetOf(rd, t).value.addr in Resolve(c, d).value :: t.via == c.lanInterfaces
  }

  lemma PlainNamesAgree(rd: Reader, c: Settings, e: PolicyEngine)
    requires ReaderOk(rd) && Strict(rd, c) && PlainDomains(rd, c) && AnswersAgree(rd, c) && e.localDns == c.localDns
    ensures (forall n <- c.networks :: n.domains == []) ==> NamesAgree(rd, c, e)
  {
    hide ParseIpNet, ReaderOk, Trunc, LanDomainRule, TargetRule, MatcherDests, SameWay;
    if forall n <- c.networks :: n.domains == [] {
      forall rule | NameRule(rd, c, rule) ensures exists d <- c.lanDomains :: rule in LanDomainRule(rd, c, d) {
        assert forall n <- c.networks :: NetworkRules(rd, n, n.domains) == [];
      }
      forall q, p, a, b | NameRule(rd, c, q) && (NameRule(rd, c, p) || exists t <- c.targets :: p in TargetRule(rd, t))
          && a in MatcherDests(e, p.matcher) && b in MatcherDests(e, q.matcher) && Trunc(a) == Trunc(b)
        ensures SameWay(p, q, a, b)
      {
        PlainSameWay(rd, c, e, p, q, a, b);
      }
    }
  }

  lemma PlainSameWay(rd: Reader, c: Settings, e: PolicyEngine, p: PolicyRule, q: PolicyRule, a: Cidr, b: Cidr)
    requires ReaderOk(rd) && Strict(rd, c) && PlainDomains(rd, c) && AnswersAgree(rd, c) && e.localDns == c.localDns
    requires exists d <- c.lanDomains :: q in LanDomainRule(rd, c, d)
    requires || (exists d <- c.lanDomains :: p in LanDomainRule(rd, c, d))
             || (exists t <- c.targets :: p in TargetRule(rd, t))
    requires a in MatcherDests(e, p.matcher) && b in MatcherDests(e, q.matcher) && Trunc(a) == Trunc(b)
    ensures SameWay(p, q, a, b)
  {
    hide ParseIpNet, ReaderOk, Trunc, LanDomainRule, TargetRule, MatcherDests, TargetStrict;
    var d :| d in c.lanDomains && q in LanDomainRule(rd, c, d);
    DomainRuleDest(rd, c, e, d, q, b);
    HostBlocks(a, b);
    if t :| t in c.targets && p in TargetRule(rd, t) {
      TargetRuleDest(rd, c, e, t, p, a);
    } else {
      var d' :| d' in c.lanDomains && p in LanDomainRule(rd, c, d');
      DomainRuleDest(rd, c, e, d', p, a);
    }
  }

  lemma StrictSameWay(rd: Reader, c: Settings, ifaces: seq<Interface>, e: PolicyEngine, gateway6: Option<Addr>,
                      wan: string, p: PolicyRule, q: PolicyRule, a: Cidr, b: Cidr)
    requires ReaderOk(rd) && Strict(rd, c) && NamesAgree(rd, c, e)
    requires BuiltFrom(e, rd, c, ifaces, Some(wan), gateway6) && OneWayPerBlock(rd, c)
    requires p in e.rules && q in e.rules && a in MatcherDests(e, p.matcher) && b in MatcherDests(e, q.matcher)
    requires Trunc(a) == Trunc(b)
    ensures SameWay(p, q, a, b)
  {
    hide ParseIpNet, ReaderOk, Trunc, NameRule, TargetRule, MatcherDests, TargetStrict;
    StrictRules(rd, c, ifaces, p);
    StrictRules(rd, c, ifaces, q);
    if !NameRule(rd, c, p) && !NameRule(rd, c, q) {
      var t :| t in c.targets && p in TargetRule(rd, t);
      var u :| u in c.targets && q in TargetRule(rd, u);
      TargetRuleDest(rd, c, e, t, p, a);
      TargetRuleDest(rd, c, e, u, q, b);
    } else if NameRule(rd, c, q) {
    } else {
      assert SameWay(q, p, b, a);
    }
  }

  lemma StrictRulesAgree(rd: Reader, c: Settings, ifaces: seq<Interface>, e: PolicyEngine, gateway6: Option<Addr>,
                         wan: string)
    requires ReaderOk(rd) && Strict(rd, c) && NamesFit(rd, c, e)
    requires BuiltFrom(e, rd, c, ifaces, Some(wan), gateway6)
    requires OneWayPerBlock(rd, c) && NamesAgree(rd, c, e)
    ensures RulesAgree(e)
  {
    hide ReaderOk, Strict, NamesFit, NamesAgree, MatcherDests, Trunc, MetricOf, OneWayPerBlock, BuiltFrom;
    forall p, q, a, b | p in e.rules && q in e.rules && Trunc(a) == Trunc(b)
                        && a in MatcherDests(e, p.matcher) && b in MatcherDests(e, q.matcher)
      ensures a == b && p.candidates == q.candidates && MetricOf(p.matcher) == MetricOf(q.matcher)
    {
      StrictSameWay(rd, c, ifaces, e, gateway6, wan, p, q, a, b);
    }
  }

  lemma StrictDistinct(rd: Reader, c: Settings, ifaces: seq<Interface>, e: PolicyEngine, gateway6: Option<Addr>,
                         wan: string)
    requires ReaderOk(rd) && Strict(rd, c) && NamesFit(rd, c, e)
    requires BuiltFrom(e, rd, c, ifaces, Some(wan), gateway6)
    requires OneWayPerBlock(rd, c) && NamesAgree(rd, c, e)
    ensures DistinctClaims(e)
  {
    hide ReaderOk, Strict, NamesFit, NamesAgree, MatcherDests, Trunc, OneWayPerBlock, RulesAgree;
    BuiltBlacklist(e, rd, c, ifaces, wan, gateway6);
    hide BuiltFrom;
    StrictRulesAgree(rd, c, ifaces, e, gateway6, wan);
    forall a, b | a in e.blacklist && b in e.blacklist && Trunc(a) == Trunc(b) ensures a == b {
      BlacklistOneWay(rd, c, a, b);
    }
    forall a, q, b | a in e.blacklist && q in e.rules && b in MatcherDests(e, q.matcher) ensures Trunc(a) != Trunc(b) {
      StrictApart(rd, c, ifaces, e, gateway6, wan, a, q, b);
    }
  }

  lemma BlacklistOneWay(rd: Reader, c: Settings, a: Cidr, b: Cidr)
    requires OneWayPerBlock(rd, c) && a in c.blacklist && b in c.blacklist && Trunc(a) == Trunc(b)
    ensures a == b
  {
  }

  lemma BuiltBlacklist(e: PolicyEngine, rd: Reader, c: Settings, ifaces: seq<Interface>, wan: string,
                       gateway6: Option<Addr>)
    requires BuiltFrom(e, rd, c, ifaces, Some(wan), gateway6)
    ensures e.blacklist == c.blacklist
  {
  }

  /** No rule shares a block with the blacklist. */
  lemma StrictApart(rd: Reader, c: Settings, ifaces: seq<Interface>, e: PolicyEngine, gateway6: Option<Addr>,
                    wan: string, a: Cidr, q: PolicyRule, b: Cidr)
    requires ReaderOk(rd) && Strict(rd, c) && NamesFit(rd, c, e)
    requires BuiltFrom(e, rd, c, ifaces, Some(wan), gateway6)
    requires a in e.blacklist && q in e.rules && b in MatcherDests(e, q.matcher)
    ensures Trunc(a) != Trunc(b)
  {
    hide ReaderOk, Strict, NamesFit, MatcherDests, Trunc, Contains;
    StrictRuleShape(rd, c, ifaces, e, gateway6, Some(wan), q, b.addr);
    TruncSameMembers(a, b.addr);
    TruncSameMembers(b, b.addr);
    ContainsOwnAddress(b);
    assert RuleCovers(e, q, b.addr);
  }

  lemma StrictNoDefault(rd: Reader, c: Settings, ifaces: seq<Interface>, e: PolicyEngine, gateway6: Option<Addr>,
                        wan: string)
    requires ReaderOk(rd) && Strict(rd, c) && NamesFit(rd, c, e)
    requires BuiltFrom(e, rd, c, ifaces, Some(wan), gateway6)
    requires !HasDefaultNet(rd, c, e)
    ensures NoDefaultClaims(e)
  {
    hide ReaderOk, Strict, NamesFit, MatcherDests;
    forall rule, dest | rule in e.rules && dest in MatcherDests(e, rule.matcher) ensures dest.prefix != 0 {
      if dest.prefix == 0 { StrictRuleDests(rd, c, ifaces, e, gateway6, wan, rule, dest); }
    }
  }

  /** For a strict configuration the hypotheses of the failover theorems can be read off the
      configuration. */
  lemma StrictTractable(rd: Reader, c: Settings, ifaces: seq<Interface>, e: PolicyEngine, gateway6: Option<Addr>,
                        wan: string)
    requires ReaderOk(rd) && Strict(rd, c) && NamesFit(rd, c, e)
    requires BuiltFrom(e, rd, c, ifaces, Some(wan), gateway6)
    requires OneWayPerBlock(rd, c) && NamesAgree(rd, c, e)
    requires !HasDefaultNet(rd, c, e) && wan != "" && "" !in c.lanInterfaces
    ensures Tractable(e)
  {
    hide ReaderOk, Strict, NamesFit, DistinctClaims, NoDefaultClaims, HasDefaultNet, OneWayPerBlock;
    StrictDistinct(rd, c, ifaces, e, gateway6, wan);
    StrictNoDefault(rd, c, ifaces, e, gateway6, wan);
    forall rule | rule in e.rules ensures "" !in rule.candidates {
      StrictRuleShape(rd, c, ifaces, e, gateway6, Some(wan), rule, RawAddr(V4, 0));
    }
  }

  /** Only IPv4 in the configuration. */
  ghost predicate Ipv4Settings(rd: Reader, c: Settings, e: PolicyEngine) {
    && (forall b <- c.blacklist :: b.addr.fam == V4)
    && (forall t <- c.targets :: NetOf(rd, t).Some? ==> NetOf(rd, t).value.addr.fam == V4)
    && forall rule, dest | NameRule(rd, c, rule) && dest in MatcherDests(e, rule.matcher) :: dest.addr.fam == V4
  }

  lemma StrictIpv4(rd: Reader, c: Settings, ifaces: seq<Interface>, e: PolicyEngine, gateway6: Option<Addr>,
                   wan: string)
    requires ReaderOk(rd) && Strict(rd, c)
    requires BuiltFrom(e, rd, c, ifaces, Some(wan), gateway6)
    requires Ipv4Settings(rd, c, e)
    ensures OnlyIpv4(e)
  {
    hide ReaderOk, MatcherDests, NetOf, NameRule, TargetRule, TargetStrict;
    forall rule, dest | rule in e.rules && dest in MatcherDests(e, rule.matcher) ensures dest.addr.fam == V4 {
      StrictRules(rd, c, ifaces, rule);
      if t :| t in c.targets && rule in TargetRule(rd, t) { TargetRuleDest(rd, c, e, t, rule, dest); }
    }
  }

  /** Under an IPv4 configuration only the IPv4 gateway can stop failovers, and only if something
      is blacklisted. */
  lemma StrictPinsIff(rd: Reader, c: Settings, ifaces: seq<Interface>, e: PolicyEngine, gateway6: Option<Addr>,
                      wan: string, f: PolicyEngine)
    requires BuiltFrom(e, rd, c, ifaces, Some(wan), gateway6) && Ipv4Settings(rd, c, e)
    ensures SamePins(e, f) <==> c.blacklist == [] || e.wanGateway == f.wanGateway
  {
    if c.blacklist != [] { assert c.blacklist[0] in c.blacklist; }
  }

  /** The strict policy over a whole life, from the configuration and the gateway readings: after
      every failover without a failed command the kernel consults the policy table for every
      IPv4 address.  It holds the routes of the current health map if and only if nothing is
      blacklisted or the gateway is the recorded one, and then answers as the policy says. */
  lemma StrictPolicyServed(rd: Reader, c: Settings, ifaces: seq<Interface>, e: PolicyEngine, gateway6: Option<Addr>,
                           wan: string, es: seq<PolicyEngine>, hms: seq<HealthMap>, ds: seq<DesiredState>,
                           hs: seq<Snapshot>, sts: seq<RuntimeState>, n: nat, ip: Addr)
    requires ReaderOk(rd) && Strict(rd, c) && NamesFit(rd, c, e)
    requires BuiltFrom(e, rd, c, ifaces, Some(wan), gateway6)
    requires OneWayPerBlock(rd, c) && NamesAgree(rd, c, e) && Ipv4Settings(rd, c, e)
    requires !HasDefaultNet(rd, c, e) && wan != "" && "" !in c.lanInterfaces
    requires Failovers(e, RpdbRule(c.rulePriority, c.tableId), es, hms, ds, hs, sts) && 0 < n <= |hms|
    requires Ready(e, RpdbRule(c.rulePriority, c.tableId), es, hs[0], sts[0])
    ensures hs[n].routes == Compiled(es[n - 1], hms[n - 1])
            <==> c.blacklist == [] || es[n - 1].wanGateway == e.wanGateway
    ensures RpdbRule(c.rulePriority, c.tableId) in hs[n].rules
    ensures c.blacklist == [] || es[n - 1].wanGateway == e.wanGateway ==> LastFollowed(e, es, n) == Some(n - 1)
    ensures LastFollowed(e, es, n).Some? ==>
              && (Consulted(hs[n], c.tableId, ip) <==> ip.fam == V4)
              && Serves(rd, c, e, wan, hms[LastFollowed(e, es, n).value], hs[n].routes, ip)
  {
    hide ReaderOk, Strict, NamesFit, HasDefaultNet, OneWayPerBlock, Ipv4Settings, Turn, Serves,
         Consulted, Tractable, OnlyIpv4, SamePins, Compiled, Ready, DesiredRoutes, BuiltFrom;
    var rule := RpdbRule(c.rulePriority, c.tableId);
    FitIsServable(rd, c, e);
    StrictTractable(rd, c, ifaces, e, gateway6, wan);
    StrictIpv4(rd, c, ifaces, e, gateway6, wan);
    StrictPinsIff(rd, c, ifaces, e, gateway6, wan, es[n - 1]);
    HistoryExactly(e, rule, es, hms, ds, hs, sts, n);
    if LastFollowed(e, es, n).Some? {
      PolicyServedThroughout(rd, c, ifaces, e, gateway6, wan, es, hms, ds, hs, sts, n, ip);
    }
  }
}
