/** What the engine is, decides and compiles, said on the configuration, the text and the lists
    themselves. */
module Decisions {
  import opened Net
  import opened Model
  import opened Text
  import opened Seqs
  import opened Config
  import opened Policy

  // ---------------------------------------------------------------- the rules of an engine

  /** A manual engine has exactly these rules. */
  lemma ManualRulesExactly(rd: Reader, c: Settings, ifaces: seq<Interface>, e: PolicyEngine, wan: Option<string>,
                           gateway6: Option<Addr>, r: PolicyRule)
    requires BuiltFrom(e, rd, c, ifaces, wan, gateway6) && c.mode == Manual
    ensures r in e.rules <==>
            || (exists t <- c.targets :: Classify(rd, t.cidr) == Some(r.matcher) && r.name == t.name
                 && r.candidates == t.via && r.fallback == (if Lower(t.fallback) == "wan" then FallWan else FallDrop)
                 && match r.matcher
                    case HostIp(_) => r.source == ManualExact
                    case Domain(_) => r.source == ManualDomain
                    case CidrNet(_) => r.source == ManualCidr
                    case DomainSuffix(_) => r.source == ManualSuffix)
            || (exists d <- c.lanDomains :: Classify(rd, d) == Some(r.matcher)
                 && r == PolicyRule("lan-domain:" + d, r.matcher, ManualDomain, c.lanInterfaces, FallDrop))
            || (exists n <- c.networks, d <- n.domains :: Classify(rd, d) == Some(r.matcher)
                 && r.name == n.name + ":" + d && r.fallback == FallDrop
                 && r.source == (if r.matcher.DomainSuffix? then ManualSuffix else ManualDomain)
                 && r.candidates == (if n.preferred != [] then n.preferred else n.interfaces))
  {
    hide SortBySource, Classify, TargetRule, LanDomainRule, NetworkRule, Lower;
    SortKeepsRules(BuildRules(rd, c, ifaces), r);
    ManualMember(rd, c, r);
    forall t: TargetConfig { RuleOfTarget(rd, t, r); }
    forall d: string { RuleOfDomain(rd, c, d, r); }
    forall n: NetworkConfig, d: string { RuleOfNetwork(rd, n, d, r); }
  }

  lemma ManualMember(rd: Reader, c: Settings, r: PolicyRule)
    ensures r in ManualRules(rd, c) <==>
            || (exists t <- c.targets :: r in TargetRule(rd, t))
            || (exists d <- c.lanDomains :: r in LanDomainRule(rd, c, d))
            || (exists n <- c.networks, d <- n.domains :: r in NetworkRule(rd, n, d))
  {
    hide TargetRule, LanDomainRule, NetworkRule;
    FlatMapMember(c.targets, (t: TargetConfig) => TargetRule(rd, t), r);
    FlatMapMember(c.lanDomains, (d: string) => LanDomainRule(rd, c, d), r);
    FlatMapMember(c.networks, (n: NetworkConfig) => NetworkRules(rd, n, n.domains), r);
    forall n: NetworkConfig
      ensures r in NetworkRules(rd, n, n.domains) <==> exists d <- n.domains :: r in NetworkRule(rd, n, d)
    {
      FlatMapMember(n.domains, (d: string) => NetworkRule(rd, n, d), r);
    }
  }

  lemma RuleOfTarget(rd: Reader, t: TargetConfig, r: PolicyRule)
    ensures r in TargetRule(rd, t) <==>
            && Classify(rd, t.cidr) == Some(r.matcher) && r.name == t.name
            && r.candidates == t.via && r.fallback == (if Lower(t.fallback) == "wan" then FallWan else FallDrop)
            && match r.matcher
               case HostIp(_) => r.source == ManualExact
               case Domain(_) => r.source == ManualDomain
               case CidrNet(_) => r.source == ManualCidr
               case DomainSuffix(_) => r.source == ManualSuffix
  {
    hide Classify, Lower;
  }

  lemma RuleOfDomain(rd: Reader, c: Settings, d: string, r: PolicyRule)
    ensures r in LanDomainRule(rd, c, d) <==>
            && Classify(rd, d) == Some(r.matcher)
            && r == PolicyRule("lan-domain:" + d, r.matcher, ManualDomain, c.lanInterfaces, FallDrop)
  {
    hide Classify;
  }

  lemma RuleOfNetwork(rd: Reader, n: NetworkConfig, d: string, r: PolicyRule)
    ensures r in NetworkRule(rd, n, d) <==>
            && Classify(rd, d) == Some(r.matcher) && r.name == n.name + ":" + d && r.fallback == FallDrop
            && r.source == (if r.matcher.DomainSuffix? then ManualSuffix else ManualDomain)
            && r.candidates == (if n.preferred != [] then n.preferred else n.interfaces)
  {
    hide Classify;
  }

  /** The addresses discovery skips: IPv4 and IPv6 loopback, and IPv6 link-local. */
  lemma SkippedExactly(a: Addr)
    ensures var loopback: Addr := (LoopbackFits(); RawAddr(V4, 127 * Pow2(24)));
            var local: Addr := (LinkLocalFits(); RawAddr(V6, 0x3fa * Pow2(118)));
            SkippedAddress(a)
            <==> Contains(RawCidr(loopback, 8), a) || a == RawAddr(V6, 1) || Contains(RawCidr(local, 10), a)
  {
    hide Pow2, Contains;
    LoopbackFits();
    LinkLocalFits();
    var loopback: Addr, local: Addr := RawAddr(V4, 127 * Pow2(24)), RawAddr(V6, 0x3fa * Pow2(118));
    ContainsIsPrefix(RawCidr(loopback, 8), a);
    ContainsIsPrefix(RawCidr(local, 10), a);
    MultipleDivides(127, Pow2(24));
    MultipleDivides(0x3fa, Pow2(118));
  }

  lemma LoopbackFits()
    ensures 127 * Pow2(24) < Pow2(32)
  {
    Pow2Sum(8, 24);
  }

  lemma LinkLocalFits()
    ensures 0x3fa * Pow2(118) < Pow2(128)
  {
    Pow2Sum(10, 118);
  }

  lemma {:induction false} Pow2Sum(m: nat, n: nat)
    ensures Pow2(m + n) == Pow2(m) * Pow2(n)
    ensures Pow2(8) == 256 && Pow2(10) == 1024
  {
    if m > 0 {
      Pow2Sum(m - 1, n);
      assert Pow2(m) * Pow2(n) == 2 * (Pow2(m - 1) * Pow2(n));
    }
  }

  lemma MultipleDivides(q: nat, d: nat)
    requires d > 0
    ensures q * d / d == q
  {
    DivUnique(q * d, d, q);
  }

  /** Outside manual mode there is a rule, dropping on failure, for the first LAN interface on each
      network of an address that is not skipped, unless a manual rule has the network; no others. */
  lemma DiscoveredExactly(rd: Reader, c: Settings, ifaces: seq<Interface>, e: PolicyEngine, wan: Option<string>,
                          gateway6: Option<Addr>)
    requires BuiltFrom(e, rd, c, ifaces, wan, gateway6) && c.mode != Manual
    ensures forall f <- ifaces, n <- f.ipAddrs | f.isLan && !SkippedAddress(n.addr) ::
              exists r <- e.rules :: r.matcher == CidrNet(Trunc(n))
    ensures forall r <- e.rules | r !in ManualRules(rd, c) ::
              exists i, n :: 0 <= i < |ifaces| && ifaces[i].isLan && n in ifaces[i].ipAddrs && !SkippedAddress(n.addr)
                && r == PolicyRule("auto-lan:" + ifaces[i].name, CidrNet(Trunc(n)), AutoDiscovered, [ifaces[i].name],
                                   FallDrop)
  {
    hide SkippedAddress, Trunc, SortBySource, ManualRules;
    var manual := ManualRules(rd, c);
    var rules := AddInterfaces(manual, ifaces);
    InterfacesAdded(manual, ifaces);
    forall r { SortKeepsRules(rules, r); }
    forall f, n | f in ifaces && n in f.ipAddrs && f.isLan && !SkippedAddress(n.addr)
      ensures exists r <- e.rules :: r.matcher == CidrNet(Trunc(n))
    {
      assert Offers(f, Trunc(n)) && HasCidrRule(rules, Trunc(n));
    }
    forall r | r in e.rules && r !in manual
      ensures exists i, n :: 0 <= i < |ifaces| && ifaces[i].isLan && n in ifaces[i].ipAddrs && !SkippedAddress(n.addr)
                && r == PolicyRule("auto-lan:" + ifaces[i].name, CidrNet(Trunc(n)), AutoDiscovered, [ifaces[i].name],
                                   FallDrop)
    {
      assert forall j :: 0 <= j < |manual| ==> rules[j] == manual[j] && manual[j] in manual;
      var k :| 0 <= k < |rules| && rules[k] == r;
      assert ForFirst(ifaces, rules[k]);
      var i, net :| 0 <= i < |ifaces| && Offers(ifaces[i], net) && rules[k] == AutoRule(ifaces[i].name, net);
      var n :| n in ifaces[i].ipAddrs && !SkippedAddress(n.addr) && Trunc(n) == net;
    }
  }

  /** The engine's IPv4 gateway is that of the first interface named like the WAN. */
  lemma GatewayExactly(rd: Reader, c: Settings, ifaces: seq<Interface>, e: PolicyEngine, wan: Option<string>,
                       gateway6: Option<Addr>)
    requires BuiltFrom(e, rd, c, ifaces, wan, gateway6)
    ensures (forall f <- ifaces :: Some(f.name) != wan) ==> e.wanGateway == None
    ensures forall i | 0 <= i < |ifaces| && Some(ifaces[i].name) == wan
                       && forall j :: 0 <= j < i ==> ifaces[j].name != ifaces[i].name ::
              e.wanGateway == ifaces[i].gateway
    ensures e.wanGateway6 == gateway6
  {
    FirstGateway(ifaces, wan);
  }

  lemma {:induction false} FirstGateway(ifaces: seq<Interface>, wan: Option<string>)
    ensures (forall f <- ifaces :: Some(f.name) != wan) ==> GatewayOf(ifaces, wan) == None
    ensures forall i | 0 <= i < |ifaces| && Some(ifaces[i].name) == wan
                       && forall j :: 0 <= j < i ==> ifaces[j].name != ifaces[i].name ::
              GatewayOf(ifaces, wan) == ifaces[i].gateway
  {
    if ifaces != [] {
      var rest := ifaces[1..];
      FirstGateway(rest, wan);
      assert ifaces == [ifaces[0]] + rest;
      forall i | 0 <= i < |ifaces| && Some(ifaces[i].name) == wan
                 && forall j :: 0 <= j < i ==> ifaces[j].name != ifaces[i].name
        ensures GatewayOf(ifaces, wan) == ifaces[i].gateway
      {
        if i > 0 {
          assert rest[i - 1] == ifaces[i];
          assert forall j :: 0 <= j < i - 1 ==> rest[j] == ifaces[j + 1];
        }
      }
    }
  }

  // ---------------------------------------------------------------- the order of the rules

  /** Host rules stand before all others, then names, then networks, then suffixes, then what was
      discovered. */
  lemma SourcesInOrder(rd: Reader, c: Settings, ifaces: seq<Interface>, e: PolicyEngine, wan: Option<string>,
                       gateway6: Option<Addr>, i: nat, j: nat)
    requires BuiltFrom(e, rd, c, ifaces, wan, gateway6) && i < j < |e.rules|
    ensures match e.rules[j].source
            case ManualExact => e.rules[i].source == ManualExact
            case ManualDomain => e.rules[i].source in {ManualExact, ManualDomain}
            case ManualCidr => e.rules[i].source in {ManualExact, ManualDomain, ManualCidr}
            case ManualSuffix => e.rules[i].source in {ManualExact, ManualDomain, ManualCidr, ManualSuffix}
            case AutoDiscovered => e.rules[i].source != WanDefault
            case WanDefault => true
  {
    RanksAscend(BuildRules(rd, c, ifaces), 1, i, j);
    RankIsOrder(e.rules[j].source, e.rules[i].source);
  }

  lemma {:induction false} RanksAscend(rules: seq<PolicyRule>, k: nat, i: nat, j: nat)
    requires i < j < |RanksFrom(rules, k)|
    ensures Rank(RanksFrom(rules, k)[i].source) <= Rank(RanksFrom(rules, k)[j].source)
    decreases 7 - k
  {
    hide Rank;
    var here, later := OfRank(rules, k), RanksFrom(rules, k + 1);
    OfRankOnly(rules, k);
    if i >= |here| {
      RanksAscend(rules, k + 1, i - |here|, j - |here|);
    } else if j >= |here| {
      RanksAtLeast(rules, k + 1, j - |here|);
    }
  }

  lemma {:induction false} OfRankOnly(rules: seq<PolicyRule>, k: nat)
    ensures forall i :: 0 <= i < |OfRank(rules, k)| ==> Rank(OfRank(rules, k)[i].source) == k
  {
    if rules != [] { OfRankOnly(rules[1..], k); }
  }

  lemma {:induction false} RanksAtLeast(rules: seq<PolicyRule>, k: nat, i: nat)
    requires i < |RanksFrom(rules, k)|
    ensures Rank(RanksFrom(rules, k)[i].source) >= k
    decreases 7 - k
  {
    OfRankOnly(rules, k);
    if i >= |OfRank(rules, k)| { RanksAtLeast(rules, k + 1, i - |OfRank(rules, k)|); }
  }

  // ---------------------------------------------------------------- decisions

  /** The blacklist comes before every rule, for an address and for a name that has one. */
  lemma BlacklistDecides(rd: Reader, e: PolicyEngine, text: string, hm: HealthMap, ip: Addr)
    requires || Classify(rd, text) == Some(HostIp(ip))
             || (!(Classify(rd, text).Some? && Classify(rd, text).value.HostIp?) && rd(text) == IpText(ip))
             || (&& !(Classify(rd, text).Some? && Classify(rd, text).value.HostIp?) && !rd(text).IpText?
                 && PolicyCanonical(text) in e.localDns && e.localDns[PolicyCanonical(text)] != []
                 && e.localDns[PolicyCanonical(text)][0] == ip)
    requires exists b <- e.blacklist :: Contains(b, ip)
    ensures DecisionFor(rd, e, text, hm)
            == Decision(text, Some(ip), None, WanDefault, e.defaultWan,
                        if e.defaultWan.Some? then [e.defaultWan.value] else [], Healthy, 254)
  {
    hide Contains, Classify, PolicyCanonical;
  }

  /** Which texts a rule decides at all, with the four matchers spelled out. */
  lemma DecidedIff(rd: Reader, c: Settings, ifaces: seq<Interface>, e: PolicyEngine, wan: Option<string>,
                   gateway6: Option<Addr>, text: string, hm: HealthMap)
    requires BuiltFrom(e, rd, c, ifaces, wan, gateway6)
    requires var ip := ResolvedIp(rd, e, text); ip.Some? ==> forall b <- e.blacklist :: !Contains(b, ip.value)
    ensures var ip := ResolvedIp(rd, e, text);
            DecisionFor(rd, e, text, hm).matchedRule.Some? <==> exists r <- e.rules ::
              match r.matcher
              case HostIp(a) => ip == Some(a)
              case CidrNet(net) =>
                if ip.Some? then Contains(net, ip.value)
                else exists req :: Classify(rd, text) == Some(CidrNet(req)) && Contains(net, Network(req))
              case Domain(d) => PolicyCanonical(d) == PolicyCanonical(text)
              case DomainSuffix(s) =>
                var low := Lower(Trim(text));
                |s| <= |low| && low[|low| - |s|..] == s
  {
    hide ResolvedIp, Contains, Classify, PolicyCanonical, FirstIndex, Lower, Trim, FirstAvailable, BuiltFrom;
    var ip := ResolvedIp(rd, e, text);
    if exists r <- e.rules :: Matches(rd, r.matcher, text, ip) {
      var r :| r in e.rules && Matches(rd, r.matcher, text, ip);
      var i :| 0 <= i < |e.rules| && e.rules[i] == r;
      assert FirstMatch(rd, e, text, ip).Some?;
    }
  }

  /** The decision of the first matching rule, with its first usable candidate. */
  lemma FirstRuleDecides(rd: Reader, e: PolicyEngine, text: string, hm: HealthMap, k: nat)
    requires var ip := ResolvedIp(rd, e, text); ip.Some? ==> forall b <- e.blacklist :: !Contains(b, ip.value)
    requires k < |e.rules| && Matches(rd, e.rules[k].matcher, text, ResolvedIp(rd, e, text))
    requires forall j :: 0 <= j < k ==> !Matches(rd, e.rules[j].matcher, text, ResolvedIp(rd, e, text))
    ensures Chosen(e, e.rules[k], text, ResolvedIp(rd, e, text), hm, DecisionFor(rd, e, text, hm))
  {
    hide ResolvedIp, Contains, Matches, Usable;
    var p := (r: PolicyRule) => Matches(rd, r.matcher, text, ResolvedIp(rd, e, text));
    assert FirstIndex(e.rules, p) == Some(k) by {
      assert p(e.rules[k]);
      assert forall j :: 0 <= j < k ==> !p(e.rules[j]);
    }
    RuleChooses(e, e.rules[k], text, ResolvedIp(rd, e, text), hm);
  }

  /** What a rule decides: its first usable candidate, or without one what its fallback says. */
  ghost predicate Chosen(e: PolicyEngine, rule: PolicyRule, text: string, ip: Option<Addr>, hm: HealthMap,
                         d: Decision) {
    var cands := rule.candidates;
    && d.destination == text && d.resolvedIp == ip && d.candidates == cands
    && d.matchedRule == Some(rule.name) && d.source == rule.source
    && (forall i | 0 <= i < |cands| && Usable(hm, cands[i]) && forall j :: 0 <= j < i ==> !Usable(hm, cands[j]) ::
          d.selected == Some(cands[i]) && d.table == e.tableId && d.healthState == Healthy)
    && ((forall i <- cands :: !Usable(hm, i)) ==>
          && d.healthState == (if cands == [] then Unknown else HealthOf(hm, cands[|cands| - 1]).state)
          && (if rule.fallback == FallWan then d.selected == e.defaultWan && d.table == 254
              else d.selected == None && d.table == e.tableId))
  }

  lemma RuleChooses(e: PolicyEngine, rule: PolicyRule, text: string, ip: Option<Addr>, hm: HealthMap)
    ensures Chosen(e, rule, text, ip, hm, RuleDecision(e, rule, hm, text, ip))
  {
    hide Usable;
  }

  /** An address that is a configured host target is decided by the first such target, whatever
      networks, names or suffixes also match. */
  lemma HostTargetDecides(rd: Reader, c: Settings, ifaces: seq<Interface>, e: PolicyEngine, wan: Option<string>,
                          gateway6: Option<Addr>, text: string, hm: HealthMap, ip: Addr, i: nat)
    requires BuiltFrom(e, rd, c, ifaces, wan, gateway6) && Classify(rd, text) == Some(HostIp(ip))
    requires forall b <- c.blacklist :: !Contains(b, ip)
    requires i < |c.targets| && Classify(rd, c.targets[i].cidr) == Some(HostIp(ip))
    requires forall j :: 0 <= j < i ==> Classify(rd, c.targets[j].cidr) != Some(HostIp(ip))
    ensures var t, d := c.targets[i], DecisionFor(rd, e, text, hm);
            && d.matchedRule == Some(t.name) && d.source == ManualExact && d.candidates == t.via
            && (forall k | 0 <= k < |t.via| && Usable(hm, t.via[k])
                           && forall j :: 0 <= j < k ==> !Usable(hm, t.via[j]) ::
                  d.selected == Some(t.via[k]) && d.table == e.tableId)
            && ((forall v <- t.via :: !Usable(hm, v)) ==>
                  if Lower(t.fallback) == "wan" then d.selected == wan && d.table == 254
                  else d.selected == None && d.table == e.tableId)
  {
    hide Contains, Classify, Usable, Matches, BuildRules, Lower;
    var rule := HostRule(c.targets[i], ip);
    var p := (r: PolicyRule) => Matches(rd, r.matcher, text, Some(ip));
    FirstHostRule(rd, c, ifaces, i, ip, text);
    var k := FirstIndex(e.rules, p);
    assert ResolvedIp(rd, e, text) == Some(ip);
    assert forall j :: 0 <= j < k.value ==> !p(e.rules[j]);
    FirstRuleDecides(rd, e, text, hm, k.value);
  }

  function HostRule(t: TargetConfig, ip: Addr): PolicyRule {
    PolicyRule(t.name, HostIp(ip), ManualExact, t.via, if Lower(t.fallback) == "wan" then FallWan else FallDrop)
  }

  lemma FirstHostRule(rd: Reader, c: Settings, ifaces: seq<Interface>, i: nat, ip: Addr, text: string)
    requires i < |c.targets| && Classify(rd, c.targets[i].cidr) == Some(HostIp(ip))
    requires forall j :: 0 <= j < i ==> Classify(rd, c.targets[j].cidr) != Some(HostIp(ip))
    ensures var s := SortBySource(BuildRules(rd, c, ifaces));
            var k := FirstIndex(s, (r: PolicyRule) => Matches(rd, r.matcher, text, Some(ip)));
            k.Some? && s[k.value] == HostRule(c.targets[i], ip)
  {
    hide Classify, FirstIndex, Lower, RanksFrom, OfRank;
    var p := (r: PolicyRule) => Matches(rd, r.matcher, text, Some(ip));
    var rule := HostRule(c.targets[i], ip);
    var a, rest := RulesAround(rd, c, ifaces, i, ip);
    var rules := BuildRules(rd, c, ifaces);
    OfRankConcat(a, [rule] + rest, 1);
    OfRankConcat([rule], rest, 1);
    OneOfRank(rule);
    var tail := OfRank(rest, 1) + RanksFrom(rules, 2);
    var s := SortBySource(rules);
    assert s == OfRank(rules, 1) + RanksFrom(rules, 2) by { FirstRank(rules); }
    assert a + ([rule] + rest) == rules;
    assert s == OfRank(a, 1) + ([rule] + tail);
    NoHostBefore(rd, c.targets[..i], ip, text);
    FirstOfConcat(OfRank(a, 1), [rule] + tail, p);
    FirstOfConcat([rule], tail, p);
    OnlyRule(rule, p);
  }

  lemma FirstRank(rules: seq<PolicyRule>)
    ensures SortBySource(rules) == OfRank(rules, 1) + RanksFrom(rules, 2)
  {
  }

  lemma OnlyRule(rule: PolicyRule, p: PolicyRule -> bool)
    requires p(rule)
    ensures FirstIndex([rule], p) == Some(0)
  {
  }

  lemma OneOfRank(rule: PolicyRule)
    requires rule.source == ManualExact
    ensures OfRank([rule], 1) == [rule]
  {
    assert [rule][1..] == [];
  }

  lemma {:induction false} OfRankConcat(a: seq<PolicyRule>, b: seq<PolicyRule>, k: nat)
    ensures OfRank(a + b, k) == OfRank(a, k) + OfRank(b, k)
  {
    hide Rank;
    if a == [] {
      assert a + b == b;
    } else {
      var rest := a[1..];
      OfRankConcat(rest, b, k);
      assert a + b == [a[0]] + (rest + b);
      OfRankHead(a[0], rest + b, k);
      OfRankHead(a[0], rest, k);
      assert [a[0]] + rest == a;
    }
  }

  lemma OfRankHead(r: PolicyRule, rest: seq<PolicyRule>, k: nat)
    ensures OfRank([r] + rest, k) == (if Rank(r.source) == k then [r] else []) + OfRank(rest, k)
  {
    assert ([r] + rest)[1..] == rest;
  }

  /** The rules before and after that of one target. */
  lemma RulesAround(rd: Reader, c: Settings, ifaces: seq<Interface>, i: nat, ip: Addr)
    returns (a: seq<PolicyRule>, rest: seq<PolicyRule>)
    requires i < |c.targets| && Classify(rd, c.targets[i].cidr) == Some(HostIp(ip))
    ensures a == TargetRules(rd, c.targets[..i])
    ensures BuildRules(rd, c, ifaces) == a + [HostRule(c.targets[i], ip)] + rest
  {
    hide Classify, Lower;
    var f := (t: TargetConfig) => TargetRule(rd, t);
    a := TargetRules(rd, c.targets[..i]);
    assert c.targets == c.targets[..i + 1] + c.targets[i + 1..];
    FlatMapConcat(c.targets[..i + 1], c.targets[i + 1..], f);
    FlatMapStep(c.targets, f, i);
    var manual := ManualRules(rd, c);
    var start := a + [HostRule(c.targets[i], ip)];
    assert start <= manual;
    InterfacesAdded(manual, ifaces);
    assert start <= BuildRules(rd, c, ifaces);
    rest := BuildRules(rd, c, ifaces)[|start|..];
  }

  lemma {:induction false} NoHostBefore(rd: Reader, ts: seq<TargetConfig>, ip: Addr, text: string)
    requires forall j :: 0 <= j < |ts| ==> Classify(rd, ts[j].cidr) != Some(HostIp(ip))
    ensures var p := (r: PolicyRule) => Matches(rd, r.matcher, text, Some(ip));
            FirstIndex(OfRank(TargetRules(rd, ts), 1), p) == None
  {
    hide Classify, Lower, FirstIndex, OfRank, Contains, PolicyCanonical;
    var p := (r: PolicyRule) => Matches(rd, r.matcher, text, Some(ip));
    var rules := OfRank(TargetRules(rd, ts), 1);
    OfRankOnly(TargetRules(rd, ts), 1);
    forall k | 0 <= k < |rules| ensures !p(rules[k]) {
      OfRankFrom(TargetRules(rd, ts), 1, rules[k]);
      FlatMapMember(ts, (t: TargetConfig) => TargetRule(rd, t), rules[k]);
      var t :| t in ts && rules[k] in TargetRule(rd, t);
      var j :| 0 <= j < |ts| && ts[j] == t;
    }
    var n := FirstIndex(rules, p);
    NoneFirst(rules, p);
  }

  lemma NoneFirst(rules: seq<PolicyRule>, p: PolicyRule -> bool)
    requires forall k :: 0 <= k < |rules| ==> !p(rules[k])
    ensures FirstIndex(rules, p) == None
  {
  }

  lemma {:induction false} OfRankFrom(rules: seq<PolicyRule>, k: nat, r: PolicyRule)
    requires r in OfRank(rules, k)
    ensures r in rules
  {
    if rules[0] != r || Rank(r.source) != k { OfRankFrom(rules[1..], k, r); }
    assert rules == [rules[0]] + rules[1..];
  }

  // ---------------------------------------------------------------- compiled routes

  /** A block a matcher claims, with the four matchers spelled out. */
  ghost predicate Claims(e: PolicyEngine, m: TargetMatcher, d: Cidr) {
    match m
    case CidrNet(net) => d == net
    case HostIp(ip) => d == RawCidr(ip, if ip.fam == V4 then 32 else 128)
    case Domain(n) =>
      PolicyCanonical(n) in e.localDns
      && exists ip <- e.localDns[PolicyCanonical(n)] :: d == RawCidr(ip, if ip.fam == V4 then 32 else 128)
    case DomainSuffix(s) =>
      var under := PolicyCanonical(s);
      exists n <- e.localDns, ip <- e.localDns[n] ::
        IsUnder(n, under) && d == RawCidr(ip, if ip.fam == V4 then 32 else 128)
  }

  predicate IsUnder(name: string, suffix: string) {
    name == suffix || (|suffix| + 1 <= |name| && name[|name| - |suffix| - 1..] == "." + suffix)
  }

  /** The desired routes, one by one: the pinned blacklist with metric 1, and for every block of
      every rule a route out its first usable candidate, or an unreachable one unless the rule
      falls back to the WAN; networks with metric 100, addresses with 50. */
  lemma RoutesExactly(rd: Reader, c: Settings, ifaces: seq<Interface>, e: PolicyEngine, wan: Option<string>,
                      gateway6: Option<Addr>, hm: HealthMap, r: Route)
    requires BuiltFrom(e, rd, c, ifaces, wan, gateway6)
    ensures r in DesiredRoutes(e, hm) <==>
            || (exists b <- c.blacklist :: wan.Some?
                 && r == Route(b, wan.value, if b.addr.fam == V4 then e.wanGateway else gateway6, c.tableId, Some(1),
                               Unicast))
            || (exists rule <- e.rules, d :: Claims(e, rule.matcher, d) && RoutedAs(rule, hm, d, c.tableId, r))
  {
    hide BuiltFrom, MatcherDests, RuleRoutes, DesiredRoutes, FirstAvailable, Claims;
    BuiltParts(rd, c, ifaces, e, wan, gateway6);
    DesiredRoutesSpec(e, hm, r);
    forall rule, d | rule in e.rules ensures Claims(e, rule.matcher, d) <==> d in MatcherDests(e, rule.matcher) {
      ClaimsAreDests(rd, c, ifaces, e, wan, gateway6, rule.matcher, d);
    }
    forall rule | rule in e.rules
      ensures r in RuleRoutes(e, rule, hm)
              <==> exists d :: Claims(e, rule.matcher, d) && RoutedAs(rule, hm, d, c.tableId, r)
    {
      RuleRoutesSpec(e, rule, hm, r);
      forall d | d in MatcherDests(e, rule.matcher)
        ensures RoutedAs(rule, hm, d, c.tableId, r) <==> Speaks(rule, hm) && r == RouteFor(e, rule, hm, d)
      {
        RoutedIsRouteFor(e, rule, hm, d, r);
      }
    }
  }

  ghost predicate RoutedAs(rule: PolicyRule, hm: HealthMap, d: Cidr, table: nat, r: Route) {
    var metric := if rule.matcher.CidrNet? then 100 else 50;
    || (exists i :: 0 <= i < |rule.candidates| && Usable(hm, rule.candidates[i])
         && (forall j :: 0 <= j < i ==> !Usable(hm, rule.candidates[j]))
         && r == Route(d, rule.candidates[i], None, table, Some(metric), Unicast))
    || ((forall i <- rule.candidates :: !Usable(hm, i)) && rule.fallback != FallWan
        && r == Route(d, "", None, table, Some(metric), Unreachable))
  }

  lemma RoutedIsRouteFor(e: PolicyEngine, rule: PolicyRule, hm: HealthMap, d: Cidr, r: Route)
    ensures RoutedAs(rule, hm, d, e.tableId, r) <==> Speaks(rule, hm) && r == RouteFor(e, rule, hm, d)
  {
    hide Usable;
    var i := AvailableIndex(rule.candidates, hm);
    if i.None? {
      assert forall c <- rule.candidates :: !Usable(hm, c);
    } else {
      assert Usable(hm, rule.candidates[i.value]) && rule.candidates[i.value] in rule.candidates;
    }
  }

  lemma BuiltParts(rd: Reader, c: Settings, ifaces: seq<Interface>, e: PolicyEngine, wan: Option<string>,
                   gateway6: Option<Addr>)
    requires BuiltFrom(e, rd, c, ifaces, wan, gateway6)
    ensures e.tableId == c.tableId && e.defaultWan == wan && e.blacklist == c.blacklist && e.wanGateway6 == gateway6
    ensures e.localDns == c.localDns && forall k :: k in e.dnsOrder <==> k in c.localDns
  {
  }

  lemma ClaimsAreDests(rd: Reader, c: Settings, ifaces: seq<Interface>, e: PolicyEngine, wan: Option<string>,
                       gateway6: Option<Addr>, m: TargetMatcher, d: Cidr)
    requires BuiltFrom(e, rd, c, ifaces, wan, gateway6)
    ensures Claims(e, m, d) <==> d in MatcherDests(e, m)
  {
    hide BuiltFrom, PolicyCanonical, SuffixNets, RecordNets, UnderSuffix, IsUnder;
    BuiltParts(rd, c, ifaces, e, wan, gateway6);
    if m.Domain? {
      RecordMember(e, PolicyCanonical(m.name), d);
    } else if m.DomainSuffix? {
      SuffixMember(e, PolicyCanonical(m.suffix), d);
    }
  }

  lemma UnderIff(n: string, s: string)
    ensures UnderSuffix(n, s) <==> IsUnder(n, s)
  {
  }

  lemma SuffixMember(e: PolicyEngine, s: string, d: Cidr)
    requires forall k :: k in e.dnsOrder <==> k in e.localDns
    ensures d in SuffixNets(e, s, e.dnsOrder)
            <==> exists n <- e.localDns, ip <- e.localDns[n] ::
                   IsUnder(n, s) && d == RawCidr(ip, if ip.fam == V4 then 32 else 128)
  {
    hide UnderSuffix, IsUnder, RecordNets;
    FlatMapMember(e.dnsOrder, (n: string) => NetsUnder(e, s, n), d);
    forall n: string ensures d in NetsUnder(e, s, n)
                     <==> IsUnder(n, s) && n in e.localDns && exists ip <- e.localDns[n] :: d == HostNet(ip)
    {
      UnderIff(n, s);
      RecordMember(e, n, d);
    }
  }

  lemma RecordMember(e: PolicyEngine, key: string, d: Cidr)
    ensures d in RecordNets(e, key) <==> key in e.localDns && exists ip <- e.localDns[key] :: d == HostNet(ip)
  {
    if key in e.localDns {
      var ips := e.localDns[key];
      if d in HostNets(ips) {
        var i :| 0 <= i < |ips| && HostNets(ips)[i] == d;
        assert ips[i] in ips;
      }
      if ip :| ip in ips && d == HostNet(ip) {
        var i :| 0 <= i < |ips| && ips[i] == ip;
        assert HostNets(ips)[i] == d;
      }
    }
  }
}
