/** Names on networks.  The strict profile does not look at them: when the policy holds for them
    all the same, and inputs for which routing or filtering does not do what it promises. */
module Networks {
  import opened Net
  import opened Model
  import opened Text
  import opened Seqs
  import opened Config
  import opened Health
  import opened Policy
  import opened Fib
  import opened Claims
  import opened Netfilter
  import opened Planner
  import opened Stages
  import opened Failover
  import opened Pipeline
  import opened Probes

  ghost predicate PlainNetworks(rd: Reader, c: Settings) {
    forall n <- c.networks, d <- n.domains :: PlainName(d) && rd(d).NotNumeric?
  }

  /** A plain name is compiled to its answers, one host each. */
  lemma NameBlocksAreHosts(rd: Reader, c: Settings, e: PolicyEngine, rule: PolicyRule, dest: Cidr)
    requires PlainDomains(rd, c) && PlainNetworks(rd, c)
    requires NameRule(rd, c, rule) && dest in MatcherDests(e, rule.matcher)
    ensures rule.matcher.Domain? && dest == HostNet(dest.addr)
  {
    hide MatcherDests, NetworkRule, LanDomainRule;
    if n :| n in c.networks && rule in NetworkRules(rd, n, n.domains) {
      FlatMapMember(n.domains, (d: string) => NetworkRule(rd, n, d), rule);
      var d :| d in n.domains && rule in NetworkRule(rd, n, d);
      NetworkRuleIsDomain(rd, n, d, rule);
    } else {
      var d :| d in c.lanDomains && rule in LanDomainRule(rd, c, d);
      LanRuleIsDomain(rd, c, d, rule);
    }
    DomainDestsAreHosts(e, rule.matcher, dest);
  }

  lemma NetworkRuleIsDomain(rd: Reader, n: NetworkConfig, d: string, rule: PolicyRule)
    requires PlainName(d) && rd(d).NotNumeric? && rule in NetworkRule(rd, n, d)
    ensures rule.matcher.Domain?
  {
    CanonicalFormsAgree(rd, d);
  }

  lemma LanRuleIsDomain(rd: Reader, c: Settings, d: string, rule: PolicyRule)
    requires PlainName(d) && rd(d).NotNumeric? && rule in LanDomainRule(rd, c, d)
    ensures rule.matcher.Domain?
  {
    CanonicalFormsAgree(rd, d);
  }

  lemma DomainDestsAreHosts(e: PolicyEngine, m: TargetMatcher, dest: Cidr)
    requires m.Domain? && dest in MatcherDests(e, m)
    ensures dest == HostNet(dest.addr)
  {
  }

  lemma CoverIsHost(rd: Reader, c: Settings, e: PolicyEngine, rule: PolicyRule, ip: Addr)
    requires PlainDomains(rd, c) && PlainNetworks(rd, c) && NameRule(rd, c, rule) && RuleCovers(e, rule, ip)
    ensures rule.matcher.Domain? && HostNet(ip) in MatcherDests(e, rule.matcher)
  {
    hide MatcherDests, NameRule;
    var dest :| dest in MatcherDests(e, rule.matcher) && Contains(dest, ip);
    NameBlocksAreHosts(rd, c, e, rule, dest);
    HostNetHoldsOne(dest.addr, ip);
  }

  /** Nothing answers: every rule is unreachable. */
  lemma NothingUp(rule: PolicyRule)
    ensures FirstAvailable(rule.candidates, NO_HEALTH).None?
  {
  }

  /** The winner over an address with an entry of its own is an entry of that very block. */
  lemma HostWinner(e: PolicyEngine, hm: HealthMap, rule: PolicyRule, ip: Addr) returns (w: RouteKey, r: Route)
    requires rule in e.rules && rule.fallback == FallDrop && HostNet(ip) in MatcherDests(e, rule.matcher)
    ensures Lookup(Compiled(e, hm), e.tableId, ip) == Some(w) && w in Compiled(e, hm)
    ensures r in DesiredRoutes(e, hm) && KeyOf(r) == w && HopOf(r) == Compiled(e, hm)[w]
    ensures Trunc(r.destination) == HostNet(ip)
    ensures w.prio <= KeyOf(RouteFor(e, rule, hm, HostNet(ip))).prio
  {
    hide Contains, MatcherDests, Trunc, DesiredRoutes;
    HostNetHoldsOne(ip, ip);
    RuleEntry(e, hm, ip, rule, HostNet(ip));
    var k := KeyOf(RouteFor(e, rule, hm, HostNet(ip)));
    TruncHost(ip);
    w := Lookup(Compiled(e, hm), e.tableId, ip).value;
    var own := InstallOrigin(map[], DesiredRoutes(e, hm), w);
    r := own.value;
    assert Better(w, k);
    LongestIsHost(w.dest, ip);
    TruncIdempotent(r.destination);
    TruncOfTruncated(w.dest, ip);
  }

  lemma TruncHost(ip: Addr)
    ensures Trunc(HostNet(ip)) == HostNet(ip)
  {
    assert Size(HostNet(ip)) == 1;
  }

  lemma LongestIsHost(n: Cidr, ip: Addr)
    requires Contains(n, ip) && n.prefix >= Width(ip.fam)
    ensures n == HostNet(ip)
  {
    HostLengthHoldsOne(n, ip);
  }

  lemma TruncOfTruncated(n: Cidr, ip: Addr)
    requires n == HostNet(ip)
    ensures Trunc(n) == n
  {
    TruncHost(ip);
  }

  /** A name over a blacklisted address that its pin does not save: with every interface down the
      address is not sent out the WAN. */
  lemma BlacklistedNameFails(rd: Reader, c: Settings, ifaces: seq<Interface>, e: PolicyEngine, gateway6: Option<Addr>,
                             wan: string, rule: PolicyRule, ip: Addr)
    requires ReaderOk(rd) && Strict(rd, c) && PlainDomains(rd, c) && PlainNetworks(rd, c)
    requires BuiltFrom(e, rd, c, ifaces, Some(wan), gateway6)
    requires NameRule(rd, c, rule) && RuleCovers(e, rule, ip) && Blacklisted(e, ip) && !PinWins(e, ip)
    ensures !Serves(rd, c, e, wan, NO_HEALTH, Compiled(e, NO_HEALTH), ip)
  {
    hide Strict, NameRule, RuleCovers, Blacklisted, Claimed, Compiled, DesiredRoutes, Trunc, MatcherDests,
         FirstAvailable;
    StrictRules(rd, c, ifaces, rule);
    NameRuleDrops(rd, c, rule);
    CoverIsHost(rd, c, e, rule, ip);
    var w, r := HostWinner(e, NO_HEALTH, rule, ip);
    NothingUp(rule);
    DesiredRoutesSpec(e, NO_HEALTH, r);
    if IsBlacklistRoute(e, r) {
      TruncIsHost(r.destination, ip);
    } else {
      var q :| q in e.rules && r in RuleRoutes(e, q, NO_HEALTH);
      NothingUp(q);
      RuleRoutesSpec(e, q, NO_HEALTH, r);
    }
  }

  lemma TruncIsHost(n: Cidr, ip: Addr)
    requires Trunc(n) == HostNet(ip)
    ensures n == HostNet(ip)
  {
    assert Size(n) == 1;
  }

  /** A name with a candidate that is no LAN interface: with that interface alone up, it is used. */
  lemma ForeignNameFails(rd: Reader, c: Settings, ifaces: seq<Interface>, e: PolicyEngine, gateway6: Option<Addr>,
                         wan: string, rule: PolicyRule, ip: Addr, iface: string)
    requires ReaderOk(rd) && Strict(rd, c) && PlainDomains(rd, c) && PlainNetworks(rd, c) && RulesAgree(e)
    requires BuiltFrom(e, rd, c, ifaces, Some(wan), gateway6)
    requires NameRule(rd, c, rule) && RuleCovers(e, rule, ip) && !Blacklisted(e, ip)
    requires iface in rule.candidates && iface !in c.lanInterfaces
    ensures var hm: HealthMap := map[iface := DEFAULT_HEALTH.(state := Healthy)];
            !Serves(rd, c, e, wan, hm, Compiled(e, hm), ip)
  {
    hide Strict, NameRule, RuleCovers, Claimed, Compiled, DesiredRoutes, Trunc, MatcherDests, Contains;
    var hm: HealthMap := map[iface := DEFAULT_HEALTH.(state := Healthy)];
    StrictRules(rd, c, ifaces, rule);
    NameRuleDrops(rd, c, rule);
    CoverIsHost(rd, c, e, rule, ip);
    NameIsClaimed(rd, c, e, rule, ip);
    OnlyOneUp(rule.candidates, iface, hm);
    var w, r := HostWinner(e, hm, rule, ip);
    var q := RouteOrigin(e, hm, r);
    TruncHost(ip);
    TruncIsHost(r.destination, ip);
    if q.None? {
      OwnEntryBlacklists(e, r.destination, ip);
    } else {
      SameChoice(e, q.value, rule, hm, r.destination);
    }
  }

  lemma OwnEntryBlacklists(e: PolicyEngine, b: Cidr, ip: Addr)
    requires b in e.blacklist && b == HostNet(ip)
    ensures Blacklisted(e, ip)
  {
    HostNetHoldsOne(ip, ip);
  }

  lemma NameIsClaimed(rd: Reader, c: Settings, e: PolicyEngine, rule: PolicyRule, ip: Addr)
    requires NameRule(rd, c, rule) && RuleCovers(e, rule, ip)
    ensures Claimed(rd, c, e, ip)
  {
    NameClaimsIff(rd, c, e, ip);
  }

  lemma OnlyOneUp(cands: seq<string>, iface: string, hm: HealthMap)
    requires iface in cands && hm == map[iface := DEFAULT_HEALTH.(state := Healthy)]
    ensures FirstAvailable(cands, hm) == Some(iface)
  {
    assert Usable(hm, iface);
  }

  /** The exact condition.  For plain names that go one way over each block, the strict policy is
      served to every address under every health map if and only if, over each address a name
      covers, the name uses LAN interfaces or, where the address is blacklisted, its pin wins. */
  lemma NamesServedExactly(rd: Reader, c: Settings, ifaces: seq<Interface>, e: PolicyEngine, gateway6: Option<Addr>,
                           wan: string)
    requires ReaderOk(rd) && Strict(rd, c) && PlainDomains(rd, c) && PlainNetworks(rd, c) && RulesAgree(e)
    requires BuiltFrom(e, rd, c, ifaces, Some(wan), gateway6)
    ensures (forall hm: HealthMap, ip :: Serves(rd, c, e, wan, hm, Compiled(e, hm), ip)) <==> NamesServable(rd, c, e)
  {
    hide Strict, NameRule, RuleCovers, Claimed, Compiled, Serves, Blacklisted, PinWins, RulesAgree, PlainDomains,
         PlainNetworks, ReaderOk, BuiltFrom;
    if NamesServable(rd, c, e) {
      forall hm: HealthMap, ip ensures Serves(rd, c, e, wan, hm, Compiled(e, hm), ip) {
        Trichotomy(rd, c, ifaces, e, gateway6, wan, hm, ip);
      }
    } else {
      var rule, ip :| NameRule(rd, c, rule) && RuleCovers(e, rule, ip)
                      && !(if Blacklisted(e, ip) then PinWins(e, ip) else OnLan(c, rule));
      if Blacklisted(e, ip) {
        BlacklistedNameFails(rd, c, ifaces, e, gateway6, wan, rule, ip);
      } else {
        var iface :| iface in rule.candidates && iface !in c.lanInterfaces;
        ForeignNameFails(rd, c, ifaces, e, gateway6, wan, rule, ip, iface);
      }
    }
  }

  // ---------------------------------------------------------------- inputs

  function NetworkOnly(b: Cidr, ip: Addr): Settings {
    Settings(Manual, "wan", "drop", 52000, 12000, ["wlan0"], [NetworkConfig("lab", ["eth9"], false, [], ["box"], [])],
             [], [b], map["box" := [ip]], [], [], [])
  }

  lemma NetworkOnlyRule(rd: Reader, b: Cidr, ip: Addr) returns (rule: PolicyRule)
    requires rd("box").NotNumeric?
    ensures rule == PolicyRule("lab:box", Domain("box"), ManualDomain, ["eth9"], FallDrop)
    ensures NetworkRules(rd, NetworkOnly(b, ip).networks[0], ["box"]) == [rule]
    ensures forall q :: NameRule(rd, NetworkOnly(b, ip), q) <==> q == rule
  {
    var n := NetworkOnly(b, ip).networks[0];
    CanonicalFormsAgree(rd, "box");
    assert Lower("box") == "box";
    rule := PolicyRule("lab:box", Domain("box"), ManualDomain, ["eth9"], FallDrop);
    assert "lab" + ":" + "box" == "lab:box";
    var f := (d: string) => NetworkRule(rd, n, d);
    assert n.domains == ["box"] && n.domains[..1] == n.domains && n.domains[..0] == [];
    FlatMapStep(n.domains, f, 0);
    assert f("box") == [rule];
    assert n in NetworkOnly(b, ip).networks;
  }

  /** The input: a network's name whose answer is blacklisted.  The strict profile and the planner
      accept it, and the address is sent out the network's interface. */
  lemma BlacklistedNameInput(rd: Reader, b: Cidr, ip: Addr, ifaces: seq<Interface>, e: PolicyEngine,
                             gateway6: Option<Addr>)
    requires ReaderOk(rd) && rd("box").NotNumeric?
    requires Contains(b, ip) && 0 < b.prefix < Width(ip.fam)
    requires BuiltFrom(e, rd, NetworkOnly(b, ip), ifaces, Some("wlan0"), gateway6)
    ensures var c := NetworkOnly(b, ip);
            var hm: HealthMap := map["eth9" := DEFAULT_HEALTH.(state := Healthy)];
            var t := Compiled(e, hm);
            var w := Lookup(t, 52000, ip);
            && Strict(rd, c) && Blacklisted(e, ip)
            && ValidDesired(DesiredFor(rd, c, DesiredRoutes(e, hm), Some("wlan0")))
            && w.Some? && t[w.value].rtype == Unicast && t[w.value].dev == "eth9" && "eth9" !in c.lanInterfaces
  {
    hide Contains, Compiled, DesiredRoutes, NetworkRules, Trunc, NameRule, HasDefaultNet, NameClashes;
    var c := NetworkOnly(b, ip);
    var hm: HealthMap := map["eth9" := DEFAULT_HEALTH.(state := Healthy)];
    assert Strict(rd, c);
    assert b in e.blacklist;
    var rule := NetworkOnlyRule(rd, b, ip);
    assert NameRule(rd, c, rule);
    StrictRules(rd, c, ifaces, rule);
    BoxAnswers(e, ip);
    OnlyOneUp(rule.candidates, "eth9", hm);
    NetworkOnlyPlannable(rd, b, ip, ifaces, e, gateway6, hm, rule);
    var w, r := HostWinner(e, hm, rule, ip);
    DesiredRoutesSpec(e, hm, r);
    TruncIsHost(r.destination, ip);
    var q :| q in e.rules && r in RuleRoutes(e, q, hm);
    StrictRules(rd, c, ifaces, q);
    assert q == rule;
    RuleRoutesSpec(e, rule, hm, r);
  }

  lemma BoxAnswers(e: PolicyEngine, ip: Addr)
    requires e.localDns == map["box" := [ip]]
    ensures MatcherDests(e, Domain("box")) == [HostNet(ip)]
  {
    assert PolicyCanonical("box") == "box";
  }

  lemma NetworkOnlyPlannable(rd: Reader, b: Cidr, ip: Addr, ifaces: seq<Interface>, e: PolicyEngine,
                             gateway6: Option<Addr>, hm: HealthMap, rule: PolicyRule)
    requires ReaderOk(rd) && Strict(rd, NetworkOnly(b, ip)) && 0 < b.prefix
    requires BuiltFrom(e, rd, NetworkOnly(b, ip), ifaces, Some("wlan0"), gateway6)
    requires forall q :: NameRule(rd, NetworkOnly(b, ip), q) <==> q == rule
    requires MatcherDests(e, rule.matcher) == [HostNet(ip)]
    ensures ValidDesired(DesiredFor(rd, NetworkOnly(b, ip), DesiredRoutes(e, hm), Some("wlan0")))
  {
    hide NameRule, Contains, Overlap, DesiredRoutes, Strict, ReaderOk;
    StrictPlannable(rd, NetworkOnly(b, ip), ifaces, e, gateway6, "wlan0", hm);
  }

  function BareTarget(text: string): Settings {
    Settings(Manual, "wan", "drop", 52000, 12000, ["wlan0"], [], [TargetConfig("t", text, None, ["eth1"], "drop")],
             [], map[], [], [], ["eth1"])
  }

  /** The input: a target written as a bare address.  It is routed out its interface, and the
      interface's chain drops a plain packet to it. */
  lemma BareTargetInput(rd: Reader, text: string, ip: Addr, ifaces: seq<Interface>, e: PolicyEngine,
                        gateway6: Option<Addr>, cfg: HealthConfig)
    requires ReaderOk(rd) && rd(text) == IpText(ip)
    requires BuiltFrom(e, rd, BareTarget(text), ifaces, Some("wlan0"), gateway6)
    ensures var c := BareTarget(text);
            var hm := After(cfg, AllUp(c));
            var d := DesiredFor(rd, c, DesiredRoutes(e, hm), Some("wlan0"));
            && Strict(rd, c) && SentOut(e, hm, c, ip)
            && ChainVerdict(PlanFor(d, "eth1", ip.fam), Packet(ip, OtherProto, 0, 0, false)) == Some(Drop)
  {
    hide Compiled, DesiredRoutes, After, AllUp, ProbeList, Contains, ChainVerdict, WhitelistOf, Strict, Lookup,
         TargetClaims, AdmitsIp, NameClaims, NetworkClaims, NamesServable, NamesFit, NetworksProbed;
    var c := BareTarget(text);
    var hm := After(cfg, AllUp(c));
    BareTargetStrict(rd, text, ip);
    PlainDomainsFit(rd, c, e);
    FitIsServable(rd, c, e);
    BareTargetClaims(rd, text, ip);
    BareTargetProbed(rd, text);
    AllUpSendsOut(rd, c, ifaces, e, gateway6, "wlan0", cfg, ip);
    RoutedPacketVerdict(rd, c, ifaces, e, gateway6, "wlan0", hm, Packet(ip, OtherProto, 0, 0, false));
  }

  lemma BareTargetProbed(rd: Reader, text: string)
    ensures "eth1" in ProbeList(BareTarget(text)) && NetworksProbed(rd, BareTarget(text))
  {
    ProbeListMember(BareTarget(text), "eth1");
    assert BareTarget(text).targets[0] in BareTarget(text).targets;
  }

  lemma BareTargetStrict(rd: Reader, text: string, ip: Addr)
    requires rd(text) == IpText(ip)
    ensures Strict(rd, BareTarget(text))
  {
  }

  lemma BareTargetClaims(rd: Reader, text: string, ip: Addr)
    requires ReaderOk(rd) && rd(text) == IpText(ip)
    ensures TargetClaims(rd, BareTarget(text), ip) && WhitelistOf(rd, BareTarget(text)) != []
    ensures !AdmitsIp(rd, BareTarget(text), "eth1", ip)
  {
    WhitelistMember(rd, BareTarget(text), Allowance("eth1", None, None));
    HostNetHoldsOne(ip, ip);
    assert BareTarget(text).targets[0] in BareTarget(text).targets;
    assert ParseIpNet(rd, text) == Some(HostNet(ip));
  }
}
