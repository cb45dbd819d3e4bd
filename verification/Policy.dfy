/** The policy engine: rules built from the configuration and sorted by precedence, the
    first-match decision, and the compilation of the rules into routes. */
module Policy {
  import opened Net
  import opened Model
  import opened Text
  import opened Seqs
  import opened Config
  import opened Health

  datatype PolicyRule = PolicyRule(
    name: string,
    matcher: TargetMatcher,
    source: RuleSource,
    candidates: seq<string>,
    fallback: FallbackAction)

  datatype Interface = Interface(name: string, ipAddrs: seq<Cidr>, gateway: Option<Addr>, isLan: bool)

  /** `dnsOrder` lists the keys of `localDns` in the order the map is iterated. */
  datatype PolicyEngine = PolicyEngine(
    tableId: nat,
    rules: seq<PolicyRule>,
    defaultWan: Option<string>,
    localDns: map<string, seq<Addr>>,
    dnsOrder: seq<string>,
    blacklist: seq<Cidr>,
    wanGateway: Option<Addr>,
    wanGateway6: Option<Addr>)

  type HealthMap = map<string, HealthView>

  const MAIN_TABLE := 254

  // ---------------------------------------------------------------- building the rules

  function SourceOf(m: TargetMatcher): RuleSource {
    match m
    case HostIp(_) => ManualExact
    case Domain(_) => ManualDomain
    case CidrNet(_) => ManualCidr
    case DomainSuffix(_) => ManualSuffix
  }

  function NetworkSource(m: TargetMatcher): RuleSource {
    if m.DomainSuffix? then ManualSuffix else ManualDomain
  }

  function TargetRule(rd: Reader, t: TargetConfig): seq<PolicyRule> {
    match Classify(rd, t.cidr)
    case None => []
    case Some(m) =>
      [PolicyRule(t.name, m, SourceOf(m), t.via, if Lower(t.fallback) == "wan" then FallWan else FallDrop)]
  }

  function LanDomainRule(rd: Reader, c: Settings, d: string): seq<PolicyRule> {
    match Classify(rd, d)
    case None => []
    case Some(m) => [PolicyRule("lan-domain:" + d, m, ManualDomain, c.lanInterfaces, FallDrop)]
  }

  function NetworkRule(rd: Reader, n: NetworkConfig, d: string): seq<PolicyRule> {
    match Classify(rd, d)
    case None => []
    case Some(m) =>
      [PolicyRule(n.name + ":" + d, m, NetworkSource(m),
                  if n.preferred != [] then n.preferred else n.interfaces, FallDrop)]
  }

  function TargetRules(rd: Reader, ts: seq<TargetConfig>): seq<PolicyRule> {
    FlatMap(ts, (t: TargetConfig) => TargetRule(rd, t))
  }

  function LanDomainRules(rd: Reader, c: Settings, ds: seq<string>): seq<PolicyRule> {
    FlatMap(ds, (d: string) => LanDomainRule(rd, c, d))
  }

  function NetworkRules(rd: Reader, n: NetworkConfig, ds: seq<string>): seq<PolicyRule> {
    FlatMap(ds, (d: string) => NetworkRule(rd, n, d))
  }

  function AllNetworkRules(rd: Reader, ns: seq<NetworkConfig>): seq<PolicyRule> {
    FlatMap(ns, (n: NetworkConfig) => NetworkRules(rd, n, n.domains))
  }

  function ManualRules(rd: Reader, c: Settings): seq<PolicyRule> {
    TargetRules(rd, c.targets) + LanDomainRules(rd, c, c.lanDomains) + AllNetworkRules(rd, c.networks)
  }

  predicate SkippedAddress(a: Addr) {
    match a.fam
    case V4 => a.bits / Pow2(24) == 127
    case V6 => a.bits == 1 || a.bits / Pow2(118) == 0x3fa
  }

  predicate HasCidrRule(rules: seq<PolicyRule>, net: Cidr) {
    exists r <- rules :: r.matcher == CidrNet(net)
  }

  function AddSubnet(rules: seq<PolicyRule>, iface: string, net: Cidr): seq<PolicyRule> {
    if SkippedAddress(net.addr) || HasCidrRule(rules, Trunc(net)) then rules
    else rules + [AutoRule(iface, Trunc(net))]
  }

  function AutoRule(iface: string, net: Cidr): PolicyRule {
    PolicyRule("auto-lan:" + iface, CidrNet(net), AutoDiscovered, [iface], FallDrop)
  }

  function AddSubnets(rules: seq<PolicyRule>, iface: string, nets: seq<Cidr>): seq<PolicyRule> {
    if nets == [] then rules
    else AddSubnet(AddSubnets(rules, iface, nets[..|nets| - 1]), iface, nets[|nets| - 1])
  }

  function AddInterfaces(rules: seq<PolicyRule>, ifaces: seq<Interface>): seq<PolicyRule> {
    if ifaces == [] then rules
    else
      var before := AddInterfaces(rules, ifaces[..|ifaces| - 1]);
      var i := ifaces[|ifaces| - 1];
      if i.isLan then AddSubnets(before, i.name, i.ipAddrs) else before
  }

  /** The rules in order of construction, before sorting. */
  function BuildRules(rd: Reader, c: Settings, ifaces: seq<Interface>): seq<PolicyRule> {
    if c.mode == Manual then ManualRules(rd, c) else AddInterfaces(ManualRules(rd, c), ifaces)
  }

  function Rank(s: RuleSource): nat {
    match s
    case ManualExact => 1
    case ManualDomain => 2
    case ManualCidr => 3
    case ManualSuffix => 4
    case AutoDiscovered => 5
    case WanDefault => 6
  }

  function OfRank(rules: seq<PolicyRule>, k: nat): seq<PolicyRule> {
    if rules == [] then []
    else (if Rank(rules[0].source) == k then [rules[0]] else []) + OfRank(rules[1..], k)
  }

  function RanksFrom(rules: seq<PolicyRule>, k: nat): seq<PolicyRule>
    decreases 7 - k
  {
    if k > 6 then [] else OfRank(rules, k) + RanksFrom(rules, k + 1)
  }

  /** `sort_by_key(source)`: a stable sort lists the ranks one after another, each in its
      original order. */
  function SortBySource(rules: seq<PolicyRule>): seq<PolicyRule> {
    RanksFrom(rules, 1)
  }

  function GatewayOf(ifaces: seq<Interface>, wan: Option<string>): Option<Addr> {
    if wan.None? || ifaces == [] then None
    else if ifaces[0].name == wan.value then ifaces[0].gateway
    else GatewayOf(ifaces[1..], wan)
  }

  /** Keys in the order the map iterates over them. */
  method OrderKeys(m: map<string, seq<Addr>>) returns (ks: seq<string>)
    ensures StrictlySorted(ks) && forall k :: k in ks <==> k in m
  {
    ks := [];
    var left := m.Keys;
    while left != {}
      invariant left <= m.Keys
      invariant forall k :: k in ks <==> k in m.Keys - left
    {
      var k :| k in left;
      ks, left := ks + [k], left - {k};
    }
    SortDedupSpec(ks);
    ks := SortDedup(ks);
  }

  /** The engine carries the sorted rules and a copy of the settings it needs. */
  ghost predicate BuiltFrom(e: PolicyEngine, rd: Reader, c: Settings, ifaces: seq<Interface>,
                            wan: Option<string>, gateway6: Option<Addr>) {
    && e.rules == SortBySource(BuildRules(rd, c, ifaces))
    && e.tableId == c.tableId && e.defaultWan == wan && e.blacklist == c.blacklist
    && e.localDns == c.localDns && StrictlySorted(e.dnsOrder) && (forall k :: k in e.dnsOrder <==> k in c.localDns)
    && e.wanGateway == GatewayOf(ifaces, wan) && e.wanGateway6 == gateway6
  }

  /** `PolicyEngine::from_config`, with the IPv6 gateway set afterwards by the caller. */
  method FromConfig(rd: Reader, c: Settings, ifaces: seq<Interface>, wan: Option<string>,
                    gateway6: Option<Addr>)
    returns (e: PolicyEngine)
    ensures BuiltFrom(e, rd, c, ifaces, wan, gateway6)
  {
    var rules := BuildManual(rd, c);
    if c.mode != Manual {
      rules := DiscoverRules(rules, ifaces);
    }
    var order := OrderKeys(c.localDns);
    e := PolicyEngine(c.tableId, SortBySource(rules), wan, c.localDns, order, c.blacklist,
                      GatewayOf(ifaces, wan), gateway6);
  }

  /** The same configuration and readings always build the same engine. */
  lemma BuiltOnce(e: PolicyEngine, f: PolicyEngine, rd: Reader, c: Settings, ifaces: seq<Interface>,
                  wan: Option<string>, gateway6: Option<Addr>)
    requires BuiltFrom(e, rd, c, ifaces, wan, gateway6) && BuiltFrom(f, rd, c, ifaces, wan, gateway6)
    ensures e == f
  {
    SortedUnique(e.dnsOrder, f.dnsOrder);
  }

  /** The three loops over targets, LAN domains and network domains. */
  method BuildManual(rd: Reader, c: Settings) returns (rules: seq<PolicyRule>)
    ensures rules == ManualRules(rd, c)
  {
    hide TargetRule, LanDomainRule, NetworkRules;
    rules := BuildTargets(rd, c.targets);
    ghost var named := rules;
    ghost var g := (d: string) => LanDomainRule(rd, c, d);
    for i := 0 to |c.lanDomains|
      invariant rules == named + FlatMap(c.lanDomains[..i], g)
    {
      FlatMapStep(c.lanDomains, g, i);
      rules := rules + LanDomainRule(rd, c, c.lanDomains[i]);
    }
    FullSlice(c.lanDomains);
    rules := BuildNetworks(rd, c.networks, rules);
  }

  method BuildTargets(rd: Reader, ts: seq<TargetConfig>) returns (rules: seq<PolicyRule>)
    ensures rules == TargetRules(rd, ts)
  {
    hide TargetRule;
    rules := [];
    ghost var f := (t: TargetConfig) => TargetRule(rd, t);
    for i := 0 to |ts|
      invariant rules == FlatMap(ts[..i], f)
    {
      FlatMapStep(ts, f, i);
      rules := rules + TargetRule(rd, ts[i]);
    }
    FullSlice(ts);
  }

  method BuildNetworks(rd: Reader, ns: seq<NetworkConfig>, before: seq<PolicyRule>) returns (rules: seq<PolicyRule>)
    ensures rules == before + AllNetworkRules(rd, ns)
  {
    hide NetworkRules;
    rules := before;
    ghost var h := (n: NetworkConfig) => NetworkRules(rd, n, n.domains);
    for i := 0 to |ns|
      invariant rules == before + FlatMap(ns[..i], h)
    {
      FlatMapStep(ns, h, i);
      rules := BuildNetwork(rd, ns[i], rules);
    }
    FullSlice(ns);
  }

  method BuildNetwork(rd: Reader, n: NetworkConfig, before: seq<PolicyRule>) returns (rules: seq<PolicyRule>)
    ensures rules == before + NetworkRules(rd, n, n.domains)
  {
    hide NetworkRule;
    rules := before;
    ghost var g := (d: string) => NetworkRule(rd, n, d);
    for j := 0 to |n.domains|
      invariant rules == before + FlatMap(n.domains[..j], g)
    {
      FlatMapStep(n.domains, g, j);
      rules := rules + NetworkRule(rd, n, n.domains[j]);
    }
    FullSlice(n.domains);
  }

  /** The interface is a LAN with a usable address in this subnet. */
  predicate Offers(f: Interface, net: Cidr) {
    f.isLan && OffersAmong(f.ipAddrs, net)
  }

  predicate OffersAmong(nets: seq<Cidr>, net: Cidr) {
    exists n <- nets :: !SkippedAddress(n.addr) && Trunc(n) == net
  }

  /** The manual rules in front; every offered subnet has a rule; each further rule is for the
      first interface that offers its subnet, and no subnet comes twice or beside a manual rule. */
  ghost predicate Discovered(manual: seq<PolicyRule>, ifaces: seq<Interface>, rules: seq<PolicyRule>) {
    && manual <= rules
    && (forall f <- ifaces, net :: Offers(f, net) ==> HasCidrRule(rules, net))
    && (forall k :: |manual| <= k < |rules| ==> ForFirst(ifaces, rules[k]))
    && (forall j, k :: 0 <= j < k < |rules| && |manual| <= k ==> rules[j].matcher != rules[k].matcher)
  }

  ghost predicate ForFirst(ifaces: seq<Interface>, rule: PolicyRule) {
    exists i, net :: 0 <= i < |ifaces| && Offers(ifaces[i], net) && rule == AutoRule(ifaces[i].name, net)
      && forall h :: 0 <= h < i ==> !Offers(ifaces[h], net)
  }

  lemma {:induction false} SubnetsAdded(rules: seq<PolicyRule>, iface: string, nets: seq<Cidr>)
    ensures var all := AddSubnets(rules, iface, nets);
            && rules <= all
            && (forall net :: OffersAmong(nets, net) ==> HasCidrRule(all, net))
            && (forall k :: |rules| <= k < |all| ==> AddedFor(rules, iface, nets, all[k]))
            && (forall j, k :: 0 <= j < k < |all| && |rules| <= k ==> all[j].matcher != all[k].matcher)
  {
    hide SkippedAddress, Trunc, HasCidrRule;
    if nets != [] {
      var init, n := nets[..|nets| - 1], nets[|nets| - 1];
      SubnetsAdded(rules, iface, init);
      assert nets == init + [n];
      var before, all := AddSubnets(rules, iface, init), AddSubnets(rules, iface, nets);
      forall net | HasCidrRule(before, net) ensures HasCidrRule(all, net) { RuleStays(before, all, net); }
      forall net | HasCidrRule(rules, net) ensures HasCidrRule(before, net) { RuleStays(rules, before, net); }
      forall k | |rules| <= k < |before| ensures AddedFor(rules, iface, nets, all[k]) {
        assert AddedFor(rules, iface, init, before[k]);
        var net :| OffersAmong(init, net) && !HasCidrRule(rules, net) && before[k] == AutoRule(iface, net);
        assert OffersAmong(nets, net);
      }
      if all != before {
        assert all == before + [AutoRule(iface, Trunc(n))];
        assert OffersAmong(nets, Trunc(n));
        NewMatcher(before, Trunc(n));
        RuleThere(all, |before|, Trunc(n));
      }
    }
  }

  /** A rule added for a subnet that no earlier rule holds. */
  ghost predicate AddedFor(rules: seq<PolicyRule>, iface: string, nets: seq<Cidr>, rule: PolicyRule) {
    exists net :: OffersAmong(nets, net) && !HasCidrRule(rules, net) && rule == AutoRule(iface, net)
  }

  lemma RuleStays(before: seq<PolicyRule>, all: seq<PolicyRule>, net: Cidr)
    requires before <= all && HasCidrRule(before, net)
    ensures HasCidrRule(all, net)
  {
    var r :| r in before && r.matcher == CidrNet(net);
    assert r in all;
  }

  lemma RuleThere(all: seq<PolicyRule>, k: nat, net: Cidr)
    requires k < |all| && all[k].matcher == CidrNet(net)
    ensures HasCidrRule(all, net)
  {
    assert all[k] in all;
  }

  lemma NewMatcher(before: seq<PolicyRule>, net: Cidr)
    requires !HasCidrRule(before, net)
    ensures forall j :: 0 <= j < |before| ==> before[j].matcher != CidrNet(net)
  {
    forall j | 0 <= j < |before| ensures before[j].matcher != CidrNet(net) { assert before[j] in before; }
  }

  lemma {:induction false} InterfacesAdded(manual: seq<PolicyRule>, ifaces: seq<Interface>)
    ensures Discovered(manual, ifaces, AddInterfaces(manual, ifaces))
  {
    hide SkippedAddress, Trunc, OffersAmong, HasCidrRule;
    if ifaces != [] {
      var init, f := ifaces[..|ifaces| - 1], ifaces[|ifaces| - 1];
      var before, all := AddInterfaces(manual, init), AddInterfaces(manual, ifaces);
      InterfacesAdded(manual, init);
      SubnetsAdded(before, f.name, f.ipAddrs);
      assert ifaces == init + [f];
      forall net | HasCidrRule(before, net) ensures HasCidrRule(all, net) { RuleStays(before, all, net); }
      forall k | |manual| <= k < |all| ensures ForFirst(ifaces, all[k]) {
        if k < |before| {
          assert ForFirst(init, before[k]) && all[k] == before[k];
          FirstStays(init, ifaces, before[k]);
        } else {
          assert AddedFor(before, f.name, f.ipAddrs, all[k]);
          var net :| OffersAmong(f.ipAddrs, net) && !HasCidrRule(before, net) && all[k] == AutoRule(f.name, net);
          assert ifaces[|init|] == f && Offers(f, net);
          forall h | 0 <= h < |init| ensures !Offers(ifaces[h], net) { assert ifaces[h] in init; }
        }
      }
    }
  }

  lemma FirstStays(init: seq<Interface>, ifaces: seq<Interface>, rule: PolicyRule)
    requires init <= ifaces && ForFirst(init, rule)
    ensures ForFirst(ifaces, rule)
  {
    var i, net :| 0 <= i < |init| && Offers(init[i], net) && rule == AutoRule(init[i].name, net)
                  && forall h :: 0 <= h < i ==> !Offers(init[h], net);
    assert ifaces[i] == init[i];
  }

  /** Auto-discovered subnets, each added unless a rule for the same block exists. */
  method DiscoverRules(manual: seq<PolicyRule>, ifaces: seq<Interface>) returns (rules: seq<PolicyRule>)
    ensures rules == AddInterfaces(manual, ifaces) && Discovered(manual, ifaces, rules)
  {
    rules := manual;
    for i := 0 to |ifaces|
      invariant rules == AddInterfaces(manual, ifaces[..i])
    {
      assert ifaces[..i + 1][..i] == ifaces[..i];
      var f := ifaces[i];
      if f.isLan {
        ghost var before := rules;
        for j := 0 to |f.ipAddrs|
          invariant rules == AddSubnets(before, f.name, f.ipAddrs[..j])
        {
          assert f.ipAddrs[..j + 1][..j] == f.ipAddrs[..j];
          if SkippedAddress(f.ipAddrs[j].addr) { continue; }
          var net := Trunc(f.ipAddrs[j]);
          if !HasCidrRule(rules, net) {
            rules := rules + [PolicyRule("auto-lan:" + f.name, CidrNet(net), AutoDiscovered, [f.name], FallDrop)];
            assert rules[|rules| - 1] == AutoRule(f.name, net);
          }
        }
        assert f.ipAddrs[..|f.ipAddrs|] == f.ipAddrs;
      }
    }
    assert ifaces[..|ifaces|] == ifaces;
    InterfacesAdded(manual, ifaces);
  }

  // ---------------------------------------------------------------- deciding

  datatype Decision = Decision(
    destination: string,
    resolvedIp: Option<Addr>,
    matchedRule: Option<string>,
    source: RuleSource,
    selected: Option<string>,
    candidates: seq<string>,
    healthState: HealthState,
    table: nat)

  function HealthOf(hm: HealthMap, iface: string): HealthView {
    if iface in hm then hm[iface] else DEFAULT_HEALTH
  }

  predicate Usable(hm: HealthMap, iface: string) {
    IsAvailable(HealthOf(hm, iface))
  }

  function AvailableIndex(cands: seq<string>, hm: HealthMap): (r: Option<nat>)
    ensures r.Some? ==> r.value < |cands| && Usable(hm, cands[r.value])
                        && forall j :: 0 <= j < r.value ==> !Usable(hm, cands[j])
    ensures r.None? ==> forall j :: 0 <= j < |cands| ==> !Usable(hm, cands[j])
  {
    if cands == [] then None
    else if Usable(hm, cands[0]) then Some(0)
    else
      var r := AvailableIndex(cands[1..], hm);
      assert cands == [cands[0]] + cands[1..];
      if r.Some? then Some(r.value + 1) else None
  }

  /** The first candidate in order of preference that is available. */
  function FirstAvailable(cands: seq<string>, hm: HealthMap): (r: Option<string>)
    ensures r.Some? ==> r.value in cands && Usable(hm, r.value)
    ensures r.None? <==> forall c <- cands :: !Usable(hm, c)
    ensures forall i | 0 <= i < |cands| && Usable(hm, cands[i]) && forall j :: 0 <= j < i ==> !Usable(hm, cands[j]) ::
              r == Some(cands[i])
  {
    var i := AvailableIndex(cands, hm);
    if i.Some? then Some(cands[i.value]) else None
  }

  /** Health reported with the decision: that of the last candidate looked at. */
  function LastHealth(cands: seq<string>, hm: HealthMap): HealthState {
    if cands == [] then Unknown else HealthOf(hm, cands[|cands| - 1]).state
  }

  function ResolvedIp(rd: Reader, e: PolicyEngine, text: string): Option<Addr> {
    var parsed := Classify(rd, text);
    if parsed.Some? && parsed.value.HostIp? then Some(parsed.value.ip)
    else if rd(text).IpText? then Some(rd(text).ip)
    else
      var key := PolicyCanonical(text);
      if key in e.localDns && e.localDns[key] != [] then Some(e.localDns[key][0]) else None
  }

  predicate Blacklisted(e: PolicyEngine, ip: Addr) {
    exists b <- e.blacklist :: Contains(b, ip)
  }

  predicate Matches(rd: Reader, m: TargetMatcher, text: string, ip: Option<Addr>) {
    match m
    case HostIp(target) => ip == Some(target)
    case CidrNet(net) =>
      if ip.Some? then Contains(net, ip.value)
      else
        var parsed := Classify(rd, text);
        parsed.Some? && parsed.value.CidrNet? && Contains(net, Network(parsed.value.net))
    case Domain(d) => PolicyCanonical(d) == PolicyCanonical(text)
    case DomainSuffix(suffix) => EndsWith(Lower(Trim(text)), suffix)
  }

  /** Index of the first rule that satisfies `p`. */
  function FirstIndex(rules: seq<PolicyRule>, p: PolicyRule -> bool): (r: Option<nat>)
    ensures r.Some? ==> r.value < |rules| && p(rules[r.value]) && forall j :: 0 <= j < r.value ==> !p(rules[j])
    ensures r.None? ==> forall j :: 0 <= j < |rules| ==> !p(rules[j])
  {
    if rules == [] then None
    else if p(rules[0]) then Some(0)
    else
      var r := FirstIndex(rules[1..], p);
      assert rules == [rules[0]] + rules[1..];
      if r.Some? then Some(r.value + 1) else None
  }

  function FirstMatch(rd: Reader, e: PolicyEngine, text: string, ip: Option<Addr>): Option<nat> {
    FirstIndex(e.rules, (r: PolicyRule) => Matches(rd, r.matcher, text, ip))
  }

  function WanDecision(e: PolicyEngine, text: string, ip: Option<Addr>): Decision {
    Decision(text, ip, None, WanDefault, e.defaultWan,
             if e.defaultWan.Some? then [e.defaultWan.value] else [], Healthy, MAIN_TABLE)
  }

  function RuleDecision(e: PolicyEngine, rule: PolicyRule, hm: HealthMap, text: string,
                        ip: Option<Addr>): Decision {
    match FirstAvailable(rule.candidates, hm)
    case Some(iface) =>
      Decision(text, ip, Some(rule.name), rule.source, Some(iface), rule.candidates, Healthy, e.tableId)
    case None =>
      Decision(text, ip, Some(rule.name), rule.source,
               if rule.fallback == FallWan then e.defaultWan else None,
               rule.candidates, LastHealth(rule.candidates, hm),
               if rule.fallback == FallWan then MAIN_TABLE else e.tableId)
  }

  function DecisionFor(rd: Reader, e: PolicyEngine, text: string, hm: HealthMap): Decision {
    var ip := ResolvedIp(rd, e, text);
    if ip.Some? && Blacklisted(e, ip.value) then WanDecision(e, text, ip)
    else match FirstMatch(rd, e, text, ip)
      case Some(k) => RuleDecision(e, e.rules[k], hm, text, ip)
      case None => WanDecision(e, text, ip)
  }

  /** `PolicyEngine::decide`. */
  method Decide(rd: Reader, e: PolicyEngine, text: string, hm: HealthMap) returns (d: Decision)
    ensures d == DecisionFor(rd, e, text, hm)
  {
    var ip := ResolvedIp(rd, e, text);
    if ip.Some? {
      for i := 0 to |e.blacklist|
        invariant forall j :: 0 <= j < i ==> !Contains(e.blacklist[j], ip.value)
      {
        if Contains(e.blacklist[i], ip.value) {
          return WanDecision(e, text, ip);
        }
      }
    }
    for k := 0 to |e.rules|
      invariant forall j :: 0 <= j < k ==> !Matches(rd, e.rules[j].matcher, text, ip)
    {
      var rule := e.rules[k];
      if Matches(rd, rule.matcher, text, ip) {
        assert FirstMatch(rd, e, text, ip) == Some(k);
        var selected, last := SelectCandidate(rule.candidates, hm);
        if selected.Some? {
          return Decision(text, ip, Some(rule.name), rule.source, selected, rule.candidates, Healthy, e.tableId);
        }
        match rule.fallback {
          case FallDrop =>
            return Decision(text, ip, Some(rule.name), rule.source, None, rule.candidates, last, e.tableId);
          case FallWan =>
            return Decision(text, ip, Some(rule.name), rule.source, e.defaultWan, rule.candidates, last, MAIN_TABLE);
          case FallUnreachable =>
            return Decision(text, ip, Some(rule.name), rule.source, None, rule.candidates, last, e.tableId);
        }
      }
    }
    return WanDecision(e, text, ip);
  }

  /** The candidate loop: stops at the first available interface. */
  method SelectCandidate(cands: seq<string>, hm: HealthMap) returns (selected: Option<string>, last: HealthState)
    ensures selected == FirstAvailable(cands, hm)
    ensures selected.None? <==> forall c <- cands :: !Usable(hm, c)
    ensures forall i | 0 <= i < |cands| && Usable(hm, cands[i]) && forall j :: 0 <= j < i ==> !Usable(hm, cands[j]) ::
              selected == Some(cands[i])
    ensures selected.None? ==> last == LastHealth(cands, hm)
  {
    selected, last := None, Unknown;
    for i := 0 to |cands|
      invariant forall j :: 0 <= j < i ==> !Usable(hm, cands[j])
      invariant last == LastHealth(cands[..i], hm)
    {
      var health := HealthOf(hm, cands[i]);
      last := health.state;
      if IsAvailable(health) {
        assert AvailableIndex(cands, hm) == Some(i);
        return Some(cands[i]), last;
      }
    }
    assert cands[..|cands|] == cands;
  }

  // ---------------------------------------------------------------- precedence

  function FirstOfRank(rules: seq<PolicyRule>, k: nat, p: PolicyRule -> bool): (r: Option<nat>)
    ensures r.Some? ==> r.value < |rules| && p(rules[r.value]) && Rank(rules[r.value].source) == k
                        && forall j :: 0 <= j < r.value && Rank(rules[j].source) == k ==> !p(rules[j])
    ensures r.None? ==> forall j :: 0 <= j < |rules| && Rank(rules[j].source) == k ==> !p(rules[j])
  {
    FirstIndex(rules, (r: PolicyRule) => p(r) && Rank(r.source) == k)
  }

  function At(rules: seq<PolicyRule>, i: Option<nat>): Option<PolicyRule>
    requires i.Some? ==> i.value < |rules|
  {
    if i.Some? then Some(rules[i.value]) else None
  }

  lemma {:induction false} FirstInRank(rules: seq<PolicyRule>, k: nat, p: PolicyRule -> bool)
    ensures At(OfRank(rules, k), FirstIndex(OfRank(rules, k), p)) == At(rules, FirstOfRank(rules, k, p))
  {
    if rules != [] {
      FirstInRank(rules[1..], k, p);
      var rest, all := OfRank(rules[1..], k), OfRank(rules, k);
      if Rank(rules[0].source) == k {
        assert all[0] == rules[0] && all[1..] == rest;
      } else {
        assert all == rest;
      }
    }
  }

  lemma {:induction false} FirstOfConcat(a: seq<PolicyRule>, b: seq<PolicyRule>, p: PolicyRule -> bool)
    ensures At(a + b, FirstIndex(a + b, p))
            == if FirstIndex(a, p).Some? then At(a, FirstIndex(a, p)) else At(b, FirstIndex(b, p))
  {
    if a == [] {
      assert a + b == b;
    } else {
      FirstOfConcat(a[1..], b, p);
      assert (a + b)[0] == a[0] && (a + b)[1..] == a[1..] + b;
    }
  }

  function Found(rules: seq<PolicyRule>, k: nat, p: PolicyRule -> bool): (r: Option<nat>)
    decreases 7 - k
    ensures r.Some? ==> r.value < |rules|
  {
    if k > 6 then None
    else if FirstOfRank(rules, k, p).Some? then FirstOfRank(rules, k, p)
    else Found(rules, k + 1, p)
  }

  lemma {:induction false} FoundInSorted(rules: seq<PolicyRule>, k: nat, p: PolicyRule -> bool)
    ensures At(RanksFrom(rules, k), FirstIndex(RanksFrom(rules, k), p)) == At(rules, Found(rules, k, p))
    decreases 7 - k
  {
    if k <= 6 {
      FirstInRank(rules, k, p);
      FoundInSorted(rules, k + 1, p);
      FirstOfConcat(OfRank(rules, k), RanksFrom(rules, k + 1), p);
    }
  }

  /** The declared order of the sources. */
  predicate Ahead(a: RuleSource, b: RuleSource) {
    match a
    case ManualExact => b != ManualExact
    case ManualDomain => b != ManualExact && b != ManualDomain
    case ManualCidr => b == ManualSuffix || b == AutoDiscovered || b == WanDefault
    case ManualSuffix => b == AutoDiscovered || b == WanDefault
    case AutoDiscovered => b == WanDefault
    case WanDefault => false
  }

  predicate BeforeOrAt(rules: seq<PolicyRule>, i: nat, j: nat)
    requires i < |rules| && j < |rules|
  {
    Ahead(rules[i].source, rules[j].source) || (rules[i].source == rules[j].source && i <= j)
  }

  lemma RankIsOrder(a: RuleSource, b: RuleSource)
    ensures Rank(a) < Rank(b) <==> Ahead(a, b)
    ensures Rank(a) == Rank(b) <==> a == b
  {
  }

  lemma {:induction false} FoundIsLeast(rules: seq<PolicyRule>, k: nat, p: PolicyRule -> bool, j: nat)
    requires j < |rules| && p(rules[j]) && Rank(rules[j].source) >= k
    ensures var i := Found(rules, k, p);
            i.Some? && p(rules[i.value]) && Rank(rules[i.value].source) >= k && BeforeOrAt(rules, i.value, j)
    decreases 7 - k
  {
    if FirstOfRank(rules, k, p).None? {
      FoundIsLeast(rules, k + 1, p, j);
    } else {
      RankIsOrder(rules[FirstOfRank(rules, k, p).value].source, rules[j].source);
    }
  }

  /** Precedence: searching the sorted rules finds the rule that is least by source and, within
      a source, by order of construction; it finds none only if no rule qualifies. */
  lemma Precedence(rules: seq<PolicyRule>, p: PolicyRule -> bool)
    ensures var s := SortBySource(rules);
            match FirstIndex(s, p)
            case None => forall r <- rules :: !p(r)
            case Some(k) =>
              exists i :: 0 <= i < |rules| && rules[i] == s[k]
                && forall j :: 0 <= j < |rules| && p(rules[j]) ==> BeforeOrAt(rules, i, j)
  {
    var s := SortBySource(rules);
    FoundInSorted(rules, 1, p);
    var found := Found(rules, 1, p);
    forall j | 0 <= j < |rules| && p(rules[j])
      ensures found.Some? && BeforeOrAt(rules, found.value, j)
    {
      FoundIsLeast(rules, 1, p, j);
    }
    if FirstIndex(s, p).Some? {
      assert rules[found.value] == s[FirstIndex(s, p).value];
    }
  }

  /** Precedence of a whole engine: for a text whose address is not blacklisted, the decision is
      that of the matching rule least by rank and then by order of construction, and the WAN's
      if the configuration yields no matching rule. */
  lemma DecisionPrecedence(rd: Reader, c: Settings, ifaces: seq<Interface>, e: PolicyEngine, wan: Option<string>,
                           gateway6: Option<Addr>, text: string, hm: HealthMap)
    requires BuiltFrom(e, rd, c, ifaces, wan, gateway6)
    requires var ip := ResolvedIp(rd, e, text); ip.Some? ==> !Blacklisted(e, ip.value)
    ensures var rules, ip, d := BuildRules(rd, c, ifaces), ResolvedIp(rd, e, text), DecisionFor(rd, e, text, hm);
            if forall r <- rules :: !Matches(rd, r.matcher, text, ip)
            then d.matchedRule.None? && d.selected == wan && d.table == MAIN_TABLE
            else exists i :: 0 <= i < |rules| && Matches(rd, rules[i].matcher, text, ip)
                   && (forall j | 0 <= j < |rules| && Matches(rd, rules[j].matcher, text, ip) ::
                         BeforeOrAt(rules, i, j))
                   && d.matchedRule == Some(rules[i].name) && d.source == rules[i].source
                   && d.selected == (if FirstAvailable(rules[i].candidates, hm).Some?
                                     then FirstAvailable(rules[i].candidates, hm)
                                     else if rules[i].fallback == FallWan then wan else None)
  {
    hide Matches, BuildRules, ResolvedIp, SortBySource, Blacklisted, FirstIndex, LastHealth, BeforeOrAt;
    LeastMatch(rd, BuildRules(rd, c, ifaces), e, text, ResolvedIp(rd, e, text));
  }

  lemma LeastMatch(rd: Reader, rules: seq<PolicyRule>, e: PolicyEngine, text: string, ip: Option<Addr>)
    requires e.rules == SortBySource(rules)
    ensures match FirstMatch(rd, e, text, ip)
            case None => forall r <- rules :: !Matches(rd, r.matcher, text, ip)
            case Some(k) =>
              && k < |e.rules|
              && (exists r <- rules :: Matches(rd, r.matcher, text, ip))
              && exists i :: 0 <= i < |rules| && rules[i] == e.rules[k] && Matches(rd, rules[i].matcher, text, ip)
                   && forall j | 0 <= j < |rules| && Matches(rd, rules[j].matcher, text, ip) :: BeforeOrAt(rules, i, j)
  {
    hide Matches, SortBySource, BeforeOrAt;
    var p := (r: PolicyRule) => Matches(rd, r.matcher, text, ip);
    Precedence(rules, p);
    var k := FirstIndex(e.rules, p);
    assert FirstMatch(rd, e, text, ip) == k;
    if k.Some? {
      var i :| 0 <= i < |rules| && rules[i] == e.rules[k.value]
               && forall j :: 0 <= j < |rules| && p(rules[j]) ==> BeforeOrAt(rules, i, j);
      assert p(rules[i]) && rules[i] in rules;
      forall j | 0 <= j < |rules| && Matches(rd, rules[j].matcher, text, ip) ensures BeforeOrAt(rules, i, j) {
        assert p(rules[j]);
      }
    } else {
      forall r | r in rules ensures !Matches(rd, r.matcher, text, ip) { assert !p(r); }
    }
  }

  // ---------------------------------------------------------------- compiling

  /** Blocks a matcher lays claim to. */
  function MatcherDests(e: PolicyEngine, m: TargetMatcher): seq<Cidr> {
    match m
    case CidrNet(net) => [net]
    case HostIp(ip) => [HostNet(ip)]
    case Domain(d) => RecordNets(e, PolicyCanonical(d))
    case DomainSuffix(s) => SuffixNets(e, PolicyCanonical(s), e.dnsOrder)
  }

  function HostNets(ips: seq<Addr>): (nets: seq<Cidr>)
    ensures |nets| == |ips| && forall i :: 0 <= i < |ips| ==> nets[i] == HostNet(ips[i])
  {
    seq(|ips|, i requires 0 <= i < |ips| => HostNet(ips[i]))
  }

  function RecordNets(e: PolicyEngine, key: string): seq<Cidr> {
    if key in e.localDns then HostNets(e.localDns[key]) else []
  }

  predicate UnderSuffix(domain: string, suffix: string) {
    domain == suffix || EndsWith(domain, "." + suffix)
  }

  function NetsUnder(e: PolicyEngine, suffix: string, name: string): seq<Cidr> {
    if UnderSuffix(name, suffix) then RecordNets(e, name) else []
  }

  function SuffixNets(e: PolicyEngine, suffix: string, names: seq<string>): seq<Cidr> {
    FlatMap(names, (n: string) => NetsUnder(e, suffix, n))
  }

  function MetricOf(m: TargetMatcher): nat {
    if m.CidrNet? then 100 else 50
  }

  function RouteTo(e: PolicyEngine, d: Cidr, dev: string, metric: nat, rtype: RouteType): Route {
    Route(d, dev, None, e.tableId, Some(metric), rtype)
  }

  function RoutesTo(e: PolicyEngine, ds: seq<Cidr>, dev: string, metric: nat, rtype: RouteType): (rs: seq<Route>)
    ensures |rs| == |ds| && forall i :: 0 <= i < |ds| ==> rs[i] == RouteTo(e, ds[i], dev, metric, rtype)
  {
    seq(|ds|, i requires 0 <= i < |ds| => RouteTo(e, ds[i], dev, metric, rtype))
  }

  lemma RoutesToConcat(e: PolicyEngine, a: seq<Cidr>, b: seq<Cidr>, dev: string, metric: nat, rtype: RouteType)
    ensures RoutesTo(e, a + b, dev, metric, rtype)
            == RoutesTo(e, a, dev, metric, rtype) + RoutesTo(e, b, dev, metric, rtype)
    ensures RoutesTo(e, a + [], dev, metric, rtype) == RoutesTo(e, a, dev, metric, rtype)
  {
    assert a + [] == a;
  }

  /** A rule is silent exactly when nothing is available and it falls back to the WAN. */
  predicate Speaks(rule: PolicyRule, hm: HealthMap) {
    FirstAvailable(rule.candidates, hm).Some? || rule.fallback != FallWan
  }

  function RuleRoutes(e: PolicyEngine, rule: PolicyRule, hm: HealthMap): seq<Route> {
    var ds, metric := MatcherDests(e, rule.matcher), MetricOf(rule.matcher);
    match FirstAvailable(rule.candidates, hm)
    case Some(iface) => RoutesTo(e, ds, iface, metric, Unicast)
    case None => if rule.fallback == FallWan then [] else RoutesTo(e, ds, "", metric, Unreachable)
  }

  function AllRuleRoutes(e: PolicyEngine, rules: seq<PolicyRule>, hm: HealthMap): seq<Route> {
    FlatMap(rules, (r: PolicyRule) => RuleRoutes(e, r, hm))
  }

  function BlacklistRoute(e: PolicyEngine, wan: string, b: Cidr): Route {
    Route(b, wan, if b.addr.fam == V4 then e.wanGateway else e.wanGateway6, e.tableId, Some(1), Unicast)
  }

  function BlacklistRoutes(e: PolicyEngine, bs: seq<Cidr>): seq<Route> {
    if e.defaultWan.None? then []
    else FlatMap(bs, (b: Cidr) => [BlacklistRoute(e, e.defaultWan.value, b)])
  }

  /** `retain` with a growing set of seen routes: the first of equal routes stays. */
  function Dedup(rs: seq<Route>): seq<Route> {
    if rs == [] then [] else
      var init, last := rs[..|rs| - 1], rs[|rs| - 1];
      if last in init then Dedup(init) else Dedup(init) + [last]
  }

  function DesiredRoutes(e: PolicyEngine, hm: HealthMap): seq<Route> {
    Dedup(BlacklistRoutes(e, e.blacklist) + AllRuleRoutes(e, e.rules, hm))
  }

  /** Routes of one rule, pushed one by one as the four matcher forms demand. */
  method CompileRule(e: PolicyEngine, rule: PolicyRule, hm: HealthMap) returns (rs: seq<Route>)
    ensures rs == RuleRoutes(e, rule, hm)
  {
    rs := [];
    var chosen, _ := SelectCandidate(rule.candidates, hm);
    var dev, rtype := "", Unreachable;
    if chosen.Some? {
      dev, rtype := chosen.value, Unicast;
    } else if rule.fallback == FallWan {
      return;
    }
    match rule.matcher {
      case CidrNet(net) => rs := [RouteTo(e, net, dev, 100, rtype)];
      case HostIp(ip) => rs := [RouteTo(e, HostNet(ip), dev, 50, rtype)];
      case Domain(d) =>
        rs := CompileRecord(e, PolicyCanonical(d), dev, rtype);
      case DomainSuffix(s) =>
        rs := CompileSuffix(e, PolicyCanonical(s), dev, rtype);
    }
  }

  method CompileSuffix(e: PolicyEngine, suffix: string, dev: string, rtype: RouteType) returns (rs: seq<Route>)
    ensures rs == RoutesTo(e, SuffixNets(e, suffix, e.dnsOrder), dev, 50, rtype)
  {
    rs := [];
    ghost var f := (n: string) => NetsUnder(e, suffix, n);
    ghost var done: seq<Cidr> := [];
    for i := 0 to |e.dnsOrder|
      invariant done == FlatMap(e.dnsOrder[..i], f)
      invariant rs == RoutesTo(e, done, dev, 50, rtype)
    {
      FlatMapStep(e.dnsOrder, f, i);
      ghost var more := NetsUnder(e, suffix, e.dnsOrder[i]);
      if UnderSuffix(e.dnsOrder[i], suffix) {
        var routes := CompileRecord(e, e.dnsOrder[i], dev, rtype);
        rs := rs + routes;
      }
      RoutesToConcat(e, done, more, dev, 50, rtype);
      done := done + more;
    }
    FullSlice(e.dnsOrder);
  }

  method CompileRecord(e: PolicyEngine, key: string, dev: string, rtype: RouteType) returns (rs: seq<Route>)
    ensures rs == RoutesTo(e, RecordNets(e, key), dev, 50, rtype)
  {
    rs := [];
    if key in e.localDns {
      var ips := e.localDns[key];
      for i := 0 to |ips|
        invariant rs == RoutesTo(e, HostNets(ips[..i]), dev, 50, rtype)
      {
        rs := rs + [RouteTo(e, HostNet(ips[i]), dev, 50, rtype)];
      }
      assert ips[..|ips|] == ips;
    }
  }

  method PinBlacklist(e: PolicyEngine) returns (routes: seq<Route>)
    ensures routes == BlacklistRoutes(e, e.blacklist)
  {
    routes := [];
    if e.defaultWan.Some? {
      ghost var f := (b: Cidr) => [BlacklistRoute(e, e.defaultWan.value, b)];
      for i := 0 to |e.blacklist|
        invariant routes == FlatMap(e.blacklist[..i], f)
      {
        FlatMapStep(e.blacklist, f, i);
        routes := routes + [BlacklistRoute(e, e.defaultWan.value, e.blacklist[i])];
      }
      FullSlice(e.blacklist);
    }
  }

  method CompileRules(e: PolicyEngine, hm: HealthMap, pinned: seq<Route>) returns (routes: seq<Route>)
    ensures routes == pinned + AllRuleRoutes(e, e.rules, hm)
  {
    hide RuleRoutes;
    routes := pinned;
    ghost var g := (r: PolicyRule) => RuleRoutes(e, r, hm);
    ghost var done: seq<Route> := [];
    for i := 0 to |e.rules|
      invariant done == FlatMap(e.rules[..i], g)
      invariant routes == pinned + done
    {
      FlatMapStep(e.rules, g, i);
      var more := CompileRule(e, e.rules[i], hm);
      assert g(e.rules[i]) == more;
      routes, done := routes + more, done + more;
    }
    FullSlice(e.rules);
  }

  /** `PolicyEngine::generate_desired_routes`. */
  method GenerateDesiredRoutes(e: PolicyEngine, hm: HealthMap) returns (kept: seq<Route>)
    ensures kept == DesiredRoutes(e, hm)
  {
    var pinned := PinBlacklist(e);
    var routes := CompileRules(e, hm, pinned);
    kept := Retain(routes);
  }

  method Retain(routes: seq<Route>) returns (kept: seq<Route>)
    ensures kept == Dedup(routes)
  {
    kept := [];
    var seen := {};
    for i := 0 to |routes|
      invariant kept == Dedup(routes[..i])
      invariant forall r :: r in seen <==> r in routes[..i]
    {
      assert routes[..i + 1][..i] == routes[..i];
      if routes[i] !in seen {
        kept := kept + [routes[i]];
        seen := seen + {routes[i]};
      }
    }
    assert routes[..|routes|] == routes;
  }

  // ---------------------------------------------------------------- what the routes are

  lemma {:induction false} DedupSpec(rs: seq<Route>)
    ensures forall r :: r in Dedup(rs) <==> r in rs
    ensures forall i, j :: 0 <= i < j < |Dedup(rs)| ==> Dedup(rs)[i] != Dedup(rs)[j]
  {
    if rs != [] {
      DedupSpec(rs[..|rs| - 1]);
      assert rs == rs[..|rs| - 1] + [rs[|rs| - 1]];
    }
  }

  predicate IsBlacklistRoute(e: PolicyEngine, r: Route) {
    e.defaultWan.Some? && exists b <- e.blacklist :: r == BlacklistRoute(e, e.defaultWan.value, b)
  }

  predicate IsRuleRoute(e: PolicyEngine, hm: HealthMap, r: Route) {
    exists rule <- e.rules :: r in RuleRoutes(e, rule, hm)
  }

  /** Every desired route pins a blacklist entry or speaks for a rule, and all of those are there. */
  lemma DesiredRoutesSpec(e: PolicyEngine, hm: HealthMap, r: Route)
    ensures r in DesiredRoutes(e, hm) <==> IsBlacklistRoute(e, r) || IsRuleRoute(e, hm, r)
  {
    DedupSpec(BlacklistRoutes(e, e.blacklist) + AllRuleRoutes(e, e.rules, hm));
    FlatMapMember(e.rules, (r: PolicyRule) => RuleRoutes(e, r, hm), r);
    if e.defaultWan.Some? {
      FlatMapMember(e.blacklist, (b: Cidr) => [BlacklistRoute(e, e.defaultWan.value, b)], r);
    }
  }

  /** The one route a speaking rule installs for one of its blocks. */
  function RouteFor(e: PolicyEngine, rule: PolicyRule, hm: HealthMap, d: Cidr): Route {
    match FirstAvailable(rule.candidates, hm)
    case Some(iface) => RouteTo(e, d, iface, MetricOf(rule.matcher), Unicast)
    case None => RouteTo(e, d, "", MetricOf(rule.matcher), Unreachable)
  }

  lemma RuleRoutesSpec(e: PolicyEngine, rule: PolicyRule, hm: HealthMap, r: Route)
    ensures r in RuleRoutes(e, rule, hm)
            <==> Speaks(rule, hm) && exists d <- MatcherDests(e, rule.matcher) :: r == RouteFor(e, rule, hm, d)
  {
    var ds, rs := MatcherDests(e, rule.matcher), RuleRoutes(e, rule, hm);
    if Speaks(rule, hm) {
      assert |rs| == |ds| && forall i :: 0 <= i < |ds| ==> rs[i] == RouteFor(e, rule, hm, ds[i]);
      if r in rs {
        var i :| 0 <= i < |rs| && rs[i] == r;
        assert ds[i] in ds;
      }
    }
  }

  /** The sort loses no rule and repeats none. */
  lemma SortKeepsRules(rules: seq<PolicyRule>, r: PolicyRule)
    ensures multiset(SortBySource(rules)) == multiset(rules)
    ensures r in SortBySource(rules) <==> r in rules
  {
    hide RanksFrom;
    forall x ensures multiset(SortBySource(rules))[x] == multiset(rules)[x] {
      RanksCount(rules, 1, x);
      assert Rank(x.source) >= 1;
    }
    SameElements(SortBySource(rules), rules, r);
  }

  lemma SameElements(a: seq<PolicyRule>, b: seq<PolicyRule>, r: PolicyRule)
    requires forall x :: multiset(a)[x] == multiset(b)[x]
    ensures multiset(a) == multiset(b) && (r in a <==> r in b)
  {
    assert multiset(a) == multiset(b);
    assert r in a <==> r in multiset(a);
    assert r in b <==> r in multiset(b);
  }

  lemma {:induction false} RanksCount(rules: seq<PolicyRule>, k: nat, r: PolicyRule)
    ensures multiset(RanksFrom(rules, k))[r] == if Rank(r.source) >= k then multiset(rules)[r] else 0
    decreases 7 - k
  {
    if k <= 6 {
      RankCount(rules, k, r);
      RanksCount(rules, k + 1, r);
    }
  }

  lemma {:induction false} RankCount(rules: seq<PolicyRule>, k: nat, r: PolicyRule)
    ensures multiset(OfRank(rules, k))[r] == if Rank(r.source) == k then multiset(rules)[r] else 0
  {
    if rules != [] {
      RankCount(rules[1..], k, r);
      assert rules == [rules[0]] + rules[1..];
    }
  }
}
