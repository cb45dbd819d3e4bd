/** What the compiled routes claim.  Under the strict profile every address falls into one
    of three classes whatever the health map says; the claimed destinations depend on health
    only through rules that fall back to the WAN; and a suffix rule claims nothing. */
module Claims {
  import opened Net
  import opened Model
  import opened Text
  import opened Seqs
  import opened Config
  import opened Health
  import opened Policy
  import opened Fib

  /** The table after installing the desired routes into an empty one. */
  ghost function Compiled(e: PolicyEngine, hm: HealthMap): Table {
    Install(map[], DesiredRoutes(e, hm))
  }

  predicate RuleCovers(e: PolicyEngine, rule: PolicyRule, ip: Addr) {
    exists d <- MatcherDests(e, rule.matcher) :: Contains(d, ip)
  }

  /** Every compiled entry over `ip` comes from a blacklist entry or a speaking rule over `ip`. */
  lemma EntryOrigin(e: PolicyEngine, hm: HealthMap, ip: Addr, k: RouteKey)
    returns (r: Route, rule: Option<PolicyRule>)
    requires k in Compiled(e, hm) && Contains(k.dest, ip)
    ensures KeyOf(r) == k && HopOf(r) == Compiled(e, hm)[k] && Contains(r.destination, ip)
    ensures rule.None? ==> IsBlacklistRoute(e, r) && Blacklisted(e, ip)
    ensures rule.Some? ==> rule.value in e.rules && Speaks(rule.value, hm) && RuleCovers(e, rule.value, ip)
                           && r.destination in MatcherDests(e, rule.value.matcher)
                           && r == RouteFor(e, rule.value, hm, r.destination)
  {
    var own := InstallOrigin(map[], DesiredRoutes(e, hm), k);
    r := own.value;
    TruncSameMembers(r.destination, ip);
    DesiredRoutesSpec(e, hm, r);
    if IsBlacklistRoute(e, r) {
      rule := None;
    } else {
      var owner :| owner in e.rules && r in RuleRoutes(e, owner, hm);
      RuleRoutesSpec(e, owner, hm, r);
      rule := Some(owner);
    }
  }

  /** The table covers exactly the pinned blacklist and the blocks of the speaking rules. */
  lemma CompiledCovers(e: PolicyEngine, hm: HealthMap, ip: Addr)
    ensures Covers(Compiled(e, hm), e.tableId, ip)
            <==> || (e.defaultWan.Some? && Blacklisted(e, ip))
                 || exists rule <- e.rules :: Speaks(rule, hm) && RuleCovers(e, rule, ip)
  {
    var rs := DesiredRoutes(e, hm);
    FreshCoversIff(rs, e.tableId, ip);
    if Covers(Compiled(e, hm), e.tableId, ip) {
      var k :| k in Compiled(e, hm).Keys && k.table == e.tableId && Contains(k.dest, ip);
      var r, rule := EntryOrigin(e, hm, ip, k);
    }
    if e.defaultWan.Some? && Blacklisted(e, ip) {
      var b :| b in e.blacklist && Contains(b, ip);
      var r := BlacklistRoute(e, e.defaultWan.value, b);
      DesiredRoutesSpec(e, hm, r);
    }
    if rule :| rule in e.rules && Speaks(rule, hm) && RuleCovers(e, rule, ip) {
      var d :| d in MatcherDests(e, rule.matcher) && Contains(d, ip);
      var r := RouteFor(e, rule, hm, d);
      RuleRoutesSpec(e, rule, hm, r);
      DesiredRoutesSpec(e, hm, r);
    }
  }

  // ---------------------------------------------------------------- strict profile

  ghost predicate PlainDomains(rd: Reader, c: Settings) {
    forall d <- c.lanDomains :: PlainName(d) && rd(d).NotNumeric?
  }

  /** Made from a LAN domain or from a domain of a network. */
  predicate NameRule(rd: Reader, c: Settings, rule: PolicyRule) {
    || (exists d <- c.lanDomains :: rule in LanDomainRule(rd, c, d))
    || (exists n <- c.networks :: rule in NetworkRules(rd, n, n.domains))
  }

  predicate OnLan(c: Settings, rule: PolicyRule) {
    forall i <- rule.candidates :: i in c.lanInterfaces
  }

  /** The address itself is an IPv6 blacklist entry: its pin beats every rule's route. */
  predicate PinWins(e: PolicyEngine, ip: Addr) {
    ip.fam == V6 && HostNet(ip) in e.blacklist
  }

  /** Over every address a name rule covers, it goes out LAN interfaces, or the pin wins.  The
      strict profile looks at the answers of LAN domains, but not at networks. */
  ghost predicate NamesServable(rd: Reader, c: Settings, e: PolicyEngine) {
    forall rule, ip :: NameRule(rd, c, rule) && RuleCovers(e, rule, ip) ==>
      if Blacklisted(e, ip) then PinWins(e, ip) else OnLan(c, rule)
  }

  /** Stronger: no name rule covers a blacklisted address or names another interface. */
  ghost predicate NamesFit(rd: Reader, c: Settings, e: PolicyEngine) {
    forall rule | NameRule(rd, c, rule) ::
      OnLan(c, rule) && forall ip :: RuleCovers(e, rule, ip) ==> !Blacklisted(e, ip)
  }

  lemma FitIsServable(rd: Reader, c: Settings, e: PolicyEngine)
    ensures NamesFit(rd, c, e) ==> NamesServable(rd, c, e)
  {
  }

  predicate TargetClaims(rd: Reader, c: Settings, ip: Addr) {
    exists t <- c.targets :: ParseIpNet(rd, t.cidr).Some? && Contains(ParseIpNet(rd, t.cidr).value, ip)
  }

  predicate DomainClaims(c: Settings, ip: Addr) {
    exists d <- c.lanDomains :: Resolve(c, d).Some? && ip in Resolve(c, d).value
  }

  predicate NetworkClaims(rd: Reader, c: Settings, e: PolicyEngine, ip: Addr) {
    exists n <- c.networks, rule <- NetworkRules(rd, n, n.domains) :: RuleCovers(e, rule, ip)
  }

  predicate NameClaims(rd: Reader, c: Settings, e: PolicyEngine, ip: Addr) {
    || (exists d <- c.lanDomains, rule <- LanDomainRule(rd, c, d) :: RuleCovers(e, rule, ip))
    || NetworkClaims(rd, c, e, ip)
  }

  lemma NameClaimsIff(rd: Reader, c: Settings, e: PolicyEngine, ip: Addr)
    ensures NameClaims(rd, c, e, ip) <==> exists rule :: NameRule(rd, c, rule) && RuleCovers(e, rule, ip)
  {
    hide RuleCovers, LanDomainRule, NetworkRules;
    if rule :| NameRule(rd, c, rule) && RuleCovers(e, rule, ip) {
      if n :| n in c.networks && rule in NetworkRules(rd, n, n.domains) { assert NetworkClaims(rd, c, e, ip); }
    }
    if NetworkClaims(rd, c, e, ip) {
      var n, rule :| n in c.networks && rule in NetworkRules(rd, n, n.domains) && RuleCovers(e, rule, ip);
      assert NameRule(rd, c, rule);
    }
    if d, rule :| d in c.lanDomains && rule in LanDomainRule(rd, c, d) && RuleCovers(e, rule, ip) {
      assert NameRule(rd, c, rule);
    }
  }

  /** What a strict configuration claims for its LAN side. */
  predicate Claimed(rd: Reader, c: Settings, e: PolicyEngine, ip: Addr) {
    TargetClaims(rd, c, ip) || NameClaims(rd, c, e, ip)
  }

  lemma MatcherOfNetDests(e: PolicyEngine, net: Cidr, ip: Addr)
    ensures (exists d <- MatcherDests(e, MatcherOfNet(net)) :: Contains(d, ip)) <==> Contains(net, ip)
  {
    var ds := MatcherDests(e, MatcherOfNet(net));
    assert |ds| == 1 && ds[0] in ds;
    if net.prefix == Width(net.addr.fam) { HostLengthHoldsOne(net, ip); HostNetHoldsOne(net.addr, ip); }
  }

  lemma StrictTargetRule(rd: Reader, c: Settings, t: TargetConfig)
    requires ReaderOk(rd) && TargetStrict(rd, c, t)
    ensures var m := MatcherOfNet(ParseIpNet(rd, t.cidr).value);
            TargetRule(rd, t) == [PolicyRule(t.name, m, SourceOf(m), t.via, FallDrop)]
  {
    assert |Lower(t.fallback)| == |Lower("drop")| == 4;
  }

  lemma StrictDomainRule(rd: Reader, c: Settings, e: PolicyEngine, d: string, ip: Addr)
    requires PlainName(d) && rd(d).NotNumeric? && DomainStrict(c, d) && e.localDns == c.localDns
    ensures LanDomainRule(rd, c, d)
            == [PolicyRule("lan-domain:" + d, Domain(Lower(d)), ManualDomain, c.lanInterfaces, FallDrop)]
    ensures RuleCovers(e, LanDomainRule(rd, c, d)[0], ip) <==> ip in Resolve(c, d).value
  {
    CanonicalFormsAgree(rd, d);
    var ips := Resolve(c, d).value;
    var nets := HostNets(ips);
    assert MatcherDests(e, Domain(Lower(d))) == nets;
    forall i | 0 <= i < |ips| ensures Contains(nets[i], ip) <==> ip == ips[i] {
      HostNetHoldsOne(ips[i], ip);
    }
    if ip in ips {
      var i :| 0 <= i < |ips| && ips[i] == ip;
      assert nets[i] in nets && Contains(nets[i], ip);
    }
  }

  /** For plain host names a LAN domain claims exactly its static answers, none of them
      blacklisted. */
  lemma PlainDomainClaims(rd: Reader, c: Settings, e: PolicyEngine, ip: Addr)
    requires Strict(rd, c) && PlainDomains(rd, c) && e.localDns == c.localDns
    ensures NameClaims(rd, c, e, ip) <==> DomainClaims(c, ip) || NetworkClaims(rd, c, e, ip)
  {
    hide RuleCovers, NetworkRules, LanDomainRule;
    forall d | d in c.lanDomains
      ensures (exists rule <- LanDomainRule(rd, c, d) :: RuleCovers(e, rule, ip))
              <==> Resolve(c, d).Some? && ip in Resolve(c, d).value
    {
      StrictDomainRule(rd, c, e, d, ip);
      assert LanDomainRule(rd, c, d)[0] in LanDomainRule(rd, c, d);
    }
  }

  /** With plain LAN domains only the networks can be unfit. */
  lemma PlainDomainsFit(rd: Reader, c: Settings, e: PolicyEngine)
    requires Strict(rd, c) && PlainDomains(rd, c) && e.localDns == c.localDns && e.blacklist == c.blacklist
    ensures (forall n <- c.networks :: n.domains == []) ==> NamesFit(rd, c, e)
  {
    hide RuleCovers, LanDomainRule;
    if forall n <- c.networks :: n.domains == [] {
      forall rule | NameRule(rd, c, rule)
        ensures OnLan(c, rule) && forall ip :: RuleCovers(e, rule, ip) ==> !Blacklisted(e, ip)
      {
        if n :| n in c.networks && rule in NetworkRules(rd, n, n.domains) { assert false; }
        var d :| d in c.lanDomains && rule in LanDomainRule(rd, c, d);
        DomainRuleFits(rd, c, e, d, rule);
      }
    }
  }

  lemma DomainRuleFits(rd: Reader, c: Settings, e: PolicyEngine, d: string, rule: PolicyRule)
    requires PlainName(d) && rd(d).NotNumeric? && DomainStrict(c, d) && e.localDns == c.localDns
    requires e.blacklist == c.blacklist && rule in LanDomainRule(rd, c, d)
    ensures OnLan(c, rule) && forall ip :: RuleCovers(e, rule, ip) ==> !Blacklisted(e, ip)
  {
    forall ip | RuleCovers(e, rule, ip) ensures !Blacklisted(e, ip) { StrictDomainRule(rd, c, e, d, ip); }
    StrictDomainRule(rd, c, e, d, RawAddr(V4, 0));
  }

  /** The rules of a strict configuration are those of its targets and names. */
  lemma StrictRules(rd: Reader, c: Settings, ifaces: seq<Interface>, rule: PolicyRule)
    requires Strict(rd, c)
    ensures rule in SortBySource(BuildRules(rd, c, ifaces))
            <==> (exists t <- c.targets :: rule in TargetRule(rd, t)) || NameRule(rd, c, rule)
  {
    SortKeepsRules(BuildRules(rd, c, ifaces), rule);
    FlatMapMember(c.targets, (t: TargetConfig) => TargetRule(rd, t), rule);
    FlatMapMember(c.lanDomains, (d: string) => LanDomainRule(rd, c, d), rule);
    FlatMapMember(c.networks, (n: NetworkConfig) => NetworkRules(rd, n, n.domains), rule);
  }

  lemma NameRuleDrops(rd: Reader, c: Settings, rule: PolicyRule)
    requires NameRule(rd, c, rule)
    ensures rule.fallback == FallDrop
  {
    if n :| n in c.networks && rule in NetworkRules(rd, n, n.domains) {
      FlatMapMember(n.domains, (d: string) => NetworkRule(rd, n, d), rule);
    }
  }

  /** A target's rule drops, names LAN interfaces, and covers the target, which is not blacklisted. */
  lemma TargetRuleShape(rd: Reader, c: Settings, e: PolicyEngine, t: TargetConfig, rule: PolicyRule, ip: Addr)
    requires ReaderOk(rd) && Strict(rd, c) && t in c.targets && rule in TargetRule(rd, t) && e.blacklist == c.blacklist
    ensures rule.fallback == FallDrop && OnLan(c, rule)
    ensures RuleCovers(e, rule, ip) ==> TargetClaims(rd, c, ip) && !Blacklisted(e, ip)
  {
    StrictTargetRule(rd, c, t);
    var net := ParseIpNet(rd, t.cidr).value;
    MatcherOfNetDests(e, net, ip);
    if b :| b in e.blacklist && Contains(b, ip) && Contains(net, ip) {
      OverlapIffCommonAddress(b, net);
      assert false;
    }
  }

  /** What a strict rule looks like: fail-closed, over LAN interfaces only, and clear of the
      blacklist, if the names fit. */
  lemma StrictRuleShape(rd: Reader, c: Settings, ifaces: seq<Interface>, e: PolicyEngine,
                        gateway6: Option<Addr>, wan: Option<string>, rule: PolicyRule, ip: Addr)
    requires ReaderOk(rd) && Strict(rd, c) && NamesFit(rd, c, e)
    requires BuiltFrom(e, rd, c, ifaces, wan, gateway6) && rule in e.rules
    ensures rule.fallback == FallDrop && OnLan(c, rule)
    ensures RuleCovers(e, rule, ip) ==> Claimed(rd, c, e, ip) && !Blacklisted(e, ip)
  {
    hide RuleCovers, TargetClaims, NameClaims, Strict, Blacklisted;
    StrictRules(rd, c, ifaces, rule);
    if t :| t in c.targets && rule in TargetRule(rd, t) {
      TargetRuleShape(rd, c, e, t, rule, ip);
    } else {
      NameRuleDrops(rd, c, rule);
      NameClaimsIff(rd, c, e, ip);
    }
  }

  /** The same where the names are merely servable. */
  lemma StrictRuleServes(rd: Reader, c: Settings, ifaces: seq<Interface>, e: PolicyEngine,
                         gateway6: Option<Addr>, wan: Option<string>, rule: PolicyRule, ip: Addr)
    requires ReaderOk(rd) && Strict(rd, c) && NamesServable(rd, c, e)
    requires BuiltFrom(e, rd, c, ifaces, wan, gateway6) && rule in e.rules
    ensures rule.fallback == FallDrop
    ensures RuleCovers(e, rule, ip) ==>
              Claimed(rd, c, e, ip) && if Blacklisted(e, ip) then PinWins(e, ip) else OnLan(c, rule)
  {
    hide RuleCovers, TargetClaims, NameClaims, Strict, Blacklisted, OnLan, PinWins;
    StrictRules(rd, c, ifaces, rule);
    if t :| t in c.targets && rule in TargetRule(rd, t) {
      TargetRuleShape(rd, c, e, t, rule, ip);
    } else {
      NameRuleDrops(rd, c, rule);
      NameClaimsIff(rd, c, e, ip);
    }
  }

  /** Conversely every configured claim is held by a rule. */
  lemma StrictClaimHasRule(rd: Reader, c: Settings, ifaces: seq<Interface>, e: PolicyEngine,
                           gateway6: Option<Addr>, wan: Option<string>, ip: Addr) returns (rule: PolicyRule)
    requires ReaderOk(rd) && Strict(rd, c) && BuiltFrom(e, rd, c, ifaces, wan, gateway6) && Claimed(rd, c, e, ip)
    ensures rule in e.rules && RuleCovers(e, rule, ip) && rule.fallback == FallDrop
  {
    hide NameClaims, NameRule;
    if TargetClaims(rd, c, ip) {
      var t :| t in c.targets && ParseIpNet(rd, t.cidr).Some? && Contains(ParseIpNet(rd, t.cidr).value, ip);
      StrictTargetRule(rd, c, t);
      rule := TargetRule(rd, t)[0];
      MatcherOfNetDests(e, ParseIpNet(rd, t.cidr).value, ip);
    } else {
      NameClaimsIff(rd, c, e, ip);
      rule :| NameRule(rd, c, rule) && RuleCovers(e, rule, ip);
      NameRuleDrops(rd, c, rule);
    }
    StrictRules(rd, c, ifaces, rule);
  }

  /** The strict policy's answer for one address: blacklisted goes out the WAN; configured goes
      out an available LAN interface or nowhere; anything else is left to the main table. */
  ghost predicate Serves(rd: Reader, c: Settings, e: PolicyEngine, wan: string, hm: HealthMap, t: Table, ip: Addr) {
    var w := Lookup(t, c.tableId, ip);
    && (Blacklisted(e, ip) ==> w.Some? && t[w.value].rtype == Unicast && t[w.value].dev == wan)
    && (!Blacklisted(e, ip) && Claimed(rd, c, e, ip) ==>
          w.Some? && (|| t[w.value].rtype == Unreachable
                      || (&& t[w.value].rtype == Unicast
                          && t[w.value].dev in c.lanInterfaces
                          && Usable(hm, t[w.value].dev))))
    && (!Blacklisted(e, ip) && !Claimed(rd, c, e, ip) ==> w.None?)
  }

  /** Trichotomy of the whole pipeline.  From a configuration the strict profile accepts, for
      every health map and every address, longest-prefix match over the compiled routes sends
      a blacklisted address out the WAN, sends a configured LAN destination out an available
      configured LAN interface or nowhere, and has no opinion on anything else. */
  lemma Trichotomy(rd: Reader, c: Settings, ifaces: seq<Interface>, e: PolicyEngine,
                   gateway6: Option<Addr>, wan: string, hm: HealthMap, ip: Addr)
    requires ReaderOk(rd) && Strict(rd, c) && NamesServable(rd, c, e)
    requires BuiltFrom(e, rd, c, ifaces, Some(wan), gateway6)
    ensures Serves(rd, c, e, wan, hm, Compiled(e, hm), ip)
  {
    hide Compiled, Blacklisted, Claimed, Usable, Covers, Strict, NamesServable;
    var t, w := Compiled(e, hm), Lookup(Compiled(e, hm), c.tableId, ip);
    StrictCovers(rd, c, ifaces, e, gateway6, wan, hm, ip);
    if Blacklisted(e, ip) && PinWins(e, ip) {
      PinnedHostWins(e, hm, ip);
    } else if w.Some? {
      StrictEntry(rd, c, ifaces, e, gateway6, wan, hm, ip, w.value);
    }
  }

  /** A blacklisted IPv6 address with an entry of its own goes out the WAN whatever covers it. */
  lemma PinnedHostWins(e: PolicyEngine, hm: HealthMap, ip: Addr)
    requires e.defaultWan.Some? && PinWins(e, ip)
    ensures var w := Lookup(Compiled(e, hm), e.tableId, ip);
            w.Some? && Compiled(e, hm)[w.value].rtype == Unicast && Compiled(e, hm)[w.value].dev == e.defaultWan.value
  {
    hide Contains, Trunc;
    var pin := BlacklistRoute(e, e.defaultWan.value, HostNet(ip));
    DesiredRoutesSpec(e, hm, pin);
    InstallKeys(map[], DesiredRoutes(e, hm), KeyOf(pin));
    HostNetHoldsOne(ip, ip);
    TruncSameMembers(HostNet(ip), ip);
    assert KeyOf(pin) in Compiled(e, hm).Keys && Covers(Compiled(e, hm), e.tableId, ip);
    var w := Lookup(Compiled(e, hm), e.tableId, ip).value;
    var r, rule := EntryOrigin(e, hm, ip, w);
    assert Better(w, KeyOf(pin)) && w.dest.addr.fam == V6 by { ContainsSameFamily(w.dest, ip); }
    if rule.Some? { RulePrio(e, rule.value, hm, r.destination); }
  }

  /** In IPv6 a rule's route never has a better metric than 50. */
  lemma RulePrio(e: PolicyEngine, rule: PolicyRule, hm: HealthMap, d: Cidr)
    requires d.addr.fam == V6
    ensures KeyOf(RouteFor(e, rule, hm, d)).prio >= 50
  {
  }

  lemma ContainsSameFamily(n: Cidr, ip: Addr)
    requires Contains(n, ip)
    ensures n.addr.fam == ip.fam
  {
  }

  /** The covered addresses are the blacklisted and the configured ones. */
  lemma StrictCovers(rd: Reader, c: Settings, ifaces: seq<Interface>, e: PolicyEngine,
                     gateway6: Option<Addr>, wan: string, hm: HealthMap, ip: Addr)
    requires ReaderOk(rd) && Strict(rd, c) && NamesServable(rd, c, e)
    requires BuiltFrom(e, rd, c, ifaces, Some(wan), gateway6)
    ensures Covers(Compiled(e, hm), c.tableId, ip) <==> Blacklisted(e, ip) || Claimed(rd, c, e, ip)
  {
    hide Compiled, Covers, Blacklisted, Claimed, RuleCovers, NamesServable;
    CompiledCovers(e, hm, ip);
    if rule :| rule in e.rules && Speaks(rule, hm) && RuleCovers(e, rule, ip) {
      StrictRuleServes(rd, c, ifaces, e, gateway6, Some(wan), rule, ip);
    }
    if Claimed(rd, c, e, ip) {
      var rule := StrictClaimHasRule(rd, c, ifaces, e, gateway6, Some(wan), ip);
      assert Speaks(rule, hm);
    }
  }

  /** An entry over an address pins the blacklist or leads out a usable LAN interface or nowhere,
      unless the pin of the address itself wins anyway. */
  lemma StrictEntry(rd: Reader, c: Settings, ifaces: seq<Interface>, e: PolicyEngine,
                    gateway6: Option<Addr>, wan: string, hm: HealthMap, ip: Addr, k: RouteKey)
    requires ReaderOk(rd) && Strict(rd, c) && NamesServable(rd, c, e)
    requires BuiltFrom(e, rd, c, ifaces, Some(wan), gateway6)
    requires k in Compiled(e, hm) && Contains(k.dest, ip) && !(Blacklisted(e, ip) && PinWins(e, ip))
    ensures var h := Compiled(e, hm)[k];
            if Blacklisted(e, ip) then h.rtype == Unicast && h.dev == wan
            else || h.rtype == Unreachable
                 || (h.rtype == Unicast && h.dev in c.lanInterfaces && Usable(hm, h.dev))
  {
    hide Compiled, Blacklisted, Claimed, RuleCovers, Usable, Contains, MatcherDests, PinWins, NamesServable;
    var r, rule := EntryOrigin(e, hm, ip, k);
    if rule.Some? {
      StrictRuleServes(rd, c, ifaces, e, gateway6, Some(wan), rule.value, ip);
    }
  }

  // ---------------------------------------------------------------- health independence

  predicate ClaimedDest(e: PolicyEngine, hm: HealthMap, d: Cidr) {
    exists r <- DesiredRoutes(e, hm) :: r.destination == d
  }

  predicate AlwaysClaimed(e: PolicyEngine, d: Cidr) {
    || (e.defaultWan.Some? && d in e.blacklist)
    || exists rule <- e.rules :: rule.fallback != FallWan && d in MatcherDests(e, rule.matcher)
  }

  lemma ClaimedDestSpec(e: PolicyEngine, hm: HealthMap, d: Cidr)
    ensures ClaimedDest(e, hm, d)
            <==> || (e.defaultWan.Some? && d in e.blacklist)
                 || exists rule <- e.rules :: Speaks(rule, hm) && d in MatcherDests(e, rule.matcher)
  {
    if r :| r in DesiredRoutes(e, hm) && r.destination == d {
      DesiredRoutesSpec(e, hm, r);
      if !IsBlacklistRoute(e, r) {
        var rule :| rule in e.rules && r in RuleRoutes(e, rule, hm);
        RuleRoutesSpec(e, rule, hm, r);
      }
    }
    if e.defaultWan.Some? && d in e.blacklist {
      DesiredRoutesSpec(e, hm, BlacklistRoute(e, e.defaultWan.value, d));
    }
    if rule :| rule in e.rules && Speaks(rule, hm) && d in MatcherDests(e, rule.matcher) {
      RuleRoutesSpec(e, rule, hm, RouteFor(e, rule, hm, d));
      DesiredRoutesSpec(e, hm, RouteFor(e, rule, hm, d));
    }
  }

  /** Failover changes only where claimed traffic goes, never what is claimed: the set of
      route destinations is the same for all health maps exactly when every WAN-fallback rule
      with a candidate claims only what is claimed anyway. */
  lemma ClaimsIndependentOfHealth(e: PolicyEngine)
    ensures (forall h1: HealthMap, h2: HealthMap, d :: ClaimedDest(e, h1, d) <==> ClaimedDest(e, h2, d))
            <==> forall rule <- e.rules | rule.fallback == FallWan && rule.candidates != [] ::
                   forall d <- MatcherDests(e, rule.matcher) :: AlwaysClaimed(e, d)
  {
    if forall h1: HealthMap, h2: HealthMap, d :: ClaimedDest(e, h1, d) <==> ClaimedDest(e, h2, d) {
      forall rule, d | rule in e.rules && rule.fallback == FallWan && rule.candidates != []
                       && d in MatcherDests(e, rule.matcher)
        ensures AlwaysClaimed(e, d)
      {
        WanRuleClaimsWhenHealthy(e, rule, d);
      }
    } else {
      var h1: HealthMap, h2: HealthMap, d :| ClaimedDest(e, h1, d) && !ClaimedDest(e, h2, d);
      ClaimedDestSpec(e, h1, d);
      ClaimedDestSpec(e, h2, d);
      var rule :| rule in e.rules && Speaks(rule, h1) && d in MatcherDests(e, rule.matcher);
      assert rule.fallback == FallWan;
      assert !AlwaysClaimed(e, d);
    }
  }

  /** With its first candidate healthy a rule speaks; with an empty map only fail-closed rules do. */
  lemma WanRuleClaimsWhenHealthy(e: PolicyEngine, rule: PolicyRule, d: Cidr)
    requires rule in e.rules && rule.candidates != [] && d in MatcherDests(e, rule.matcher)
    ensures var up: HealthMap := map[rule.candidates[0] := DEFAULT_HEALTH.(state := Healthy)];
            var none: HealthMap := map[];
            ClaimedDest(e, up, d) && (ClaimedDest(e, none, d) ==> AlwaysClaimed(e, d))
  {
    var up: HealthMap := map[rule.candidates[0] := DEFAULT_HEALTH.(state := Healthy)];
    var none: HealthMap := map[];
    ClaimedDestSpec(e, up, d);
    ClaimedDestSpec(e, none, d);
    assert rule.candidates[0] in rule.candidates && Usable(up, rule.candidates[0]);
    assert Speaks(rule, up);
    forall r | r in e.rules && Speaks(r, none) ensures r.fallback != FallWan {
      assert forall c <- r.candidates :: !Usable(none, c);
    }
  }

  // ---------------------------------------------------------------- suffix rules

  /** A name without empty labels. */
  predicate OrdinaryName(s: string) {
    && s != "" && s[0] != '.' && s[|s| - 1] != '.'
    && forall i :: 0 <= i < |s| - 1 ==> !(s[i] == '.' && s[i + 1] == '.')
  }

  lemma {:induction false} TrimDotsPrefix(s: string)
    ensures TrimDots(s) <= s
  {
    if s != "" { TrimDotsPrefix(s[..|s| - 1]); }
  }

  lemma {:induction false} TrimRightPrefix(s: string)
    ensures TrimRight(s) <= s
  {
    if s != "" { TrimRightPrefix(s[..|s| - 1]); }
  }

  /** What the engine makes of a suffix with a leading dot is empty or keeps that dot. */
  lemma CanonicalKeepsLeadingDot(suffix: string)
    requires suffix != "" && suffix[0] == '.'
    ensures var k := PolicyCanonical(suffix); k == "" || k[0] == '.'
  {
    var t := Trim(suffix);
    assert TrimLeft(suffix) == suffix;
    TrimRightPrefix(suffix);
    assert t == "" || t[0] == '.';
    assert TrimStars(TrimTildes(t)) == t;
    TrimDotsPrefix(t);
    var k := TrimDots(t);
    assert k != "" ==> Lower(k)[0] == LowerChar(k[0]);
  }

  lemma EmptyLabel(n: string, k: string)
    requires k == "" || k[0] == '.'
    requires UnderSuffix(n, k)
    ensures !OrdinaryName(n)
  {
    if EndsWith(n, "." + k) {
      var at := |n| - |"." + k|;
      assert n[at] == n[at..][0] == '.';
      if k != "" {
        assert n[at + 1] == n[at..][1] == '.';
      }
    }
  }

  /** A suffix rule decides names but routes none of their addresses: over ordinary record
      names it compiles to no route, for every suffix the classifier can produce, although
      `decide` matches every name that ends in the suffix. */
  lemma SuffixRuleRoutesNothing(rd: Reader, text: string, e: PolicyEngine, rule: PolicyRule, hm: HealthMap,
                                name: string, ip: Option<Addr>)
    requires Classify(rd, text) == Some(rule.matcher) && rule.matcher.DomainSuffix?
    requires forall k <- e.dnsOrder :: OrdinaryName(k)
    ensures RuleRoutes(e, rule, hm) == []
    ensures Matches(rd, rule.matcher, name, ip) <==> EndsWith(Lower(Trim(name)), rule.matcher.suffix)
  {
    SuffixKeepsDot(rd, text);
    var k := PolicyCanonical(rule.matcher.suffix);
    CanonicalKeepsLeadingDot(rule.matcher.suffix);
    forall n | n in e.dnsOrder ensures !UnderSuffix(n, k) {
      if UnderSuffix(n, k) { EmptyLabel(n, k); }
    }
    NothingUnder(e, k, e.dnsOrder);
  }

  lemma {:induction false} NothingUnder(e: PolicyEngine, suffix: string, names: seq<string>)
    requires forall n <- names :: !UnderSuffix(n, suffix)
    ensures SuffixNets(e, suffix, names) == []
  {
    if names != [] { NothingUnder(e, suffix, names[..|names| - 1]); }
  }
}
