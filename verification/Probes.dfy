/** The probe loop: which interfaces are probed, what a tick does to the health map, how many
    reconciliations a run of ticks can trigger, and which interfaces can never be chosen. */
module Probes {
  import opened Net
  import opened Model
  import opened Text
  import opened Seqs
  import opened Config
  import opened Health
  import opened Policy
  import opened Fib
  import opened Claims

  /** One tick: the interfaces probed, those that answered, and the clock. */
  datatype Tick = Tick(probed: seq<string>, up: set<string>, now: nat)

  ghost predicate WellFormed(ticks: seq<Tick>) {
    forall t <- ticks :: forall i, j :: 0 <= i < j < |t.probed| ==> t.probed[i] != t.probed[j]
  }

  /** The interfaces of networks and targets, sorted, once each. */
  function ProbeList(c: Settings): seq<string> {
    SortDedup(ProbeSources(c))
  }

  function ProbeSources(c: Settings): seq<string> {
    FlatMap(c.networks, (n: NetworkConfig) => n.interfaces) + FlatMap(c.targets, (t: TargetConfig) => t.via)
  }

  lemma ProbeListMember(c: Settings, iface: string)
    ensures iface in ProbeList(c)
            <==> (exists n <- c.networks :: iface in n.interfaces) || (exists t <- c.targets :: iface in t.via)
  {
    SortDedupSpec(ProbeSources(c));
    FlatMapMember(c.networks, (n: NetworkConfig) => n.interfaces, iface);
    FlatMapMember(c.targets, (t: TargetConfig) => t.via, iface);
  }

  function ProbeOf(iface: string, t: Tick): Probe {
    Probe(iface in t.up, t.now)
  }

  /** The map after probing the listed interfaces in turn. */
  function Probed(cfg: HealthConfig, hm: HealthMap, list: seq<string>, t: Tick): HealthMap {
    if list == [] then hm else
      var before, iface := Probed(cfg, hm, list[..|list| - 1], t), list[|list| - 1];
      before[iface := OnProbe(cfg, HealthOf(before, iface), ProbeOf(iface, t))]
  }

  lemma {:induction false} ProbedSpec(cfg: HealthConfig, hm: HealthMap, list: seq<string>, t: Tick, iface: string)
    requires forall i, j :: 0 <= i < j < |list| ==> list[i] != list[j]
    ensures var after := Probed(cfg, hm, list, t);
            HealthOf(after, iface) == if iface in list then OnProbe(cfg, HealthOf(hm, iface), ProbeOf(iface, t))
                                      else HealthOf(hm, iface)
  {
    if list != [] {
      ProbedSpec(cfg, hm, list[..|list| - 1], t, iface);
      assert list == list[..|list| - 1] + [list[|list| - 1]];
    }
  }

  /** Availability of some probed interface changes, which triggers a reconciliation. */
  predicate Triggers(cfg: HealthConfig, hm: HealthMap, t: Tick) {
    exists i <- t.probed :: Usable(hm, i) != Usable(Probed(cfg, hm, t.probed, t), i)
  }

  // ---------------------------------------------------------------- runs of ticks

  const NO_HEALTH: HealthMap := map[]

  function After(cfg: HealthConfig, ticks: seq<Tick>): HealthMap {
    if ticks == [] then NO_HEALTH
    else Probed(cfg, After(cfg, ticks[..|ticks| - 1]), ticks[|ticks| - 1].probed, ticks[|ticks| - 1])
  }

  /** How many ticks of the run trigger a reconciliation. */
  function Triggered(cfg: HealthConfig, ticks: seq<Tick>): nat {
    if ticks == [] then 0 else
      Triggered(cfg, ticks[..|ticks| - 1])
      + if Triggers(cfg, After(cfg, ticks[..|ticks| - 1]), ticks[|ticks| - 1]) then 1 else 0
  }

  /** What one interface saw of the run. */
  function Seen(iface: string, ticks: seq<Tick>): (ps: seq<Probe>)
    ensures |ps| <= |ticks|
  {
    if ticks == [] then [] else
      var last := ticks[|ticks| - 1];
      Seen(iface, ticks[..|ticks| - 1]) + if iface in last.probed then [ProbeOf(iface, last)] else []
  }

  lemma SeenStep(cfg: HealthConfig, ticks: seq<Tick>, iface: string)
    requires ticks != []
    ensures var init, last := ticks[..|ticks| - 1], ticks[|ticks| - 1];
            if iface in last.probed
            then && Run(cfg, DEFAULT_HEALTH, Seen(iface, ticks))
                    == OnProbe(cfg, Run(cfg, DEFAULT_HEALTH, Seen(iface, init)), ProbeOf(iface, last))
                 && Flaps(cfg, DEFAULT_HEALTH, Seen(iface, ticks))
                    == Flaps(cfg, DEFAULT_HEALTH, Seen(iface, init))
                       + if IsAvailable(Run(cfg, DEFAULT_HEALTH, Seen(iface, init)))
                            != IsAvailable(Run(cfg, DEFAULT_HEALTH, Seen(iface, ticks))) then 1 else 0
            else Seen(iface, ticks) == Seen(iface, init)
  {
    var init, last := ticks[..|ticks| - 1], ticks[|ticks| - 1];
    RunAppend(cfg, DEFAULT_HEALTH, Seen(iface, init), ProbeOf(iface, last));
    assert Seen(iface, init) + [] == Seen(iface, init);
  }

  /** The health map is one state machine per interface, each fed with its own probes. */
  lemma {:induction false} HealthIsPerInterface(cfg: HealthConfig, ticks: seq<Tick>, iface: string)
    requires WellFormed(ticks)
    ensures HealthOf(After(cfg, ticks), iface) == Run(cfg, DEFAULT_HEALTH, Seen(iface, ticks))
  {
    if ticks != [] {
      var init, last := ticks[..|ticks| - 1], ticks[|ticks| - 1];
      HealthIsPerInterface(cfg, init, iface);
      ProbedSpec(cfg, After(cfg, init), last.probed, last, iface);
      SeenStep(cfg, ticks, iface);
    }
  }

  function FlapsOf(cfg: HealthConfig, ifaces: seq<string>, ticks: seq<Tick>): nat {
    if ifaces == [] then 0
    else FlapsOf(cfg, ifaces[1..], ticks) + Flaps(cfg, DEFAULT_HEALTH, Seen(ifaces[0], ticks))
  }

  /** A further tick adds to the flaps of an interface what it does to its availability. */
  lemma FlapsStep(cfg: HealthConfig, ticks: seq<Tick>, iface: string)
    requires ticks != [] && WellFormed(ticks)
    ensures Flaps(cfg, DEFAULT_HEALTH, Seen(iface, ticks))
            == Flaps(cfg, DEFAULT_HEALTH, Seen(iface, ticks[..|ticks| - 1]))
               + if Usable(After(cfg, ticks[..|ticks| - 1]), iface) != Usable(After(cfg, ticks), iface) then 1 else 0
  {
    var init, last := ticks[..|ticks| - 1], ticks[|ticks| - 1];
    HealthIsPerInterface(cfg, init, iface);
    HealthIsPerInterface(cfg, ticks, iface);
    SeenStep(cfg, ticks, iface);
  }

  lemma {:induction false} FlapsOfStep(cfg: HealthConfig, ifaces: seq<string>, ticks: seq<Tick>)
    requires ticks != [] && WellFormed(ticks)
    ensures var init := ticks[..|ticks| - 1];
            FlapsOf(cfg, ifaces, ticks) >= FlapsOf(cfg, ifaces, init)
            && ((exists i <- ifaces :: Usable(After(cfg, init), i) != Usable(After(cfg, ticks), i)) ==>
                  FlapsOf(cfg, ifaces, ticks) > FlapsOf(cfg, ifaces, init))
  {
    if ifaces != [] {
      FlapsStep(cfg, ticks, ifaces[0]);
      FlapsOfStep(cfg, ifaces[1..], ticks);
      assert ifaces == [ifaces[0]] + ifaces[1..];
    }
  }

  lemma {:induction false} TriggersAreFlaps(cfg: HealthConfig, ifaces: seq<string>, ticks: seq<Tick>)
    requires WellFormed(ticks) && forall t <- ticks, i <- t.probed :: i in ifaces
    ensures Triggered(cfg, ticks) <= FlapsOf(cfg, ifaces, ticks)
  {
    if ticks != [] {
      TriggersAreFlaps(cfg, ifaces, ticks[..|ticks| - 1]);
      FlapsOfStep(cfg, ifaces, ticks);
      assert ticks[|ticks| - 1] in ticks;
    }
  }

  lemma {:induction false} FlapsOfBound(cfg: HealthConfig, ifaces: seq<string>, ticks: seq<Tick>)
    ensures FlapsOf(cfg, ifaces, ticks) <= |ifaces| * (2 * CeilDiv(|ticks|, Margin(cfg) + 1))
  {
    if ifaces != [] {
      FlapsOfBound(cfg, ifaces[1..], ticks);
      FlapBound(cfg, Seen(ifaces[0], ticks));
      CeilDivMonotone(|Seen(ifaces[0], ticks)|, |ticks|, Margin(cfg) + 1);
      OneMore(|ifaces| - 1, 2 * CeilDiv(|ticks|, Margin(cfg) + 1));
    } else {
      assert 0 * (2 * CeilDiv(|ticks|, Margin(cfg) + 1)) == 0;
    }
  }

  lemma OneMore(n: nat, x: nat)
    ensures (n + 1) * x == n * x + x
  {
  }

  lemma CeilDivMonotone(a: nat, b: nat, d: nat)
    requires a <= b && d > 0
    ensures CeilDiv(a, d) <= CeilDiv(b, d)
  {
    FloorBounds(a + d - 1, d);
    FloorBounds(b + d - 1, d);
    if CeilDiv(b, d) < CeilDiv(a, d) { MulMonotone(CeilDiv(b, d) + 1, CeilDiv(a, d), d); }
  }

  /** However the interfaces answer and however the configuration changes the list between
      ticks, n ticks over k interfaces trigger at most 2 * k * ceil(n / (margin + 1))
      failover reconciliations. */
  lemma FailoverBound(cfg: HealthConfig, ifaces: seq<string>, ticks: seq<Tick>)
    requires WellFormed(ticks) && forall t <- ticks, i <- t.probed :: i in ifaces
    ensures Triggered(cfg, ticks) <= |ifaces| * (2 * CeilDiv(|ticks|, Margin(cfg) + 1))
  {
    TriggersAreFlaps(cfg, ifaces, ticks);
    FlapsOfBound(cfg, ifaces, ticks);
  }

  // ---------------------------------------------------------------- who can be chosen

  /** The runs of a daemon whose configuration stays put. */
  ghost predicate TicksOf(c: Settings, ticks: seq<Tick>) {
    forall t <- ticks :: t.probed == ProbeList(c)
  }

  lemma {:induction false} NeverSeen(iface: string, ticks: seq<Tick>)
    requires forall t <- ticks :: iface !in t.probed
    ensures Seen(iface, ticks) == []
  {
    if ticks != [] {
      assert ticks[|ticks| - 1] in ticks;
      NeverSeen(iface, ticks[..|ticks| - 1]);
    }
  }

  /** An interface can become available at all exactly when it is probed. */
  lemma UsableIffProbed(cfg: HealthConfig, c: Settings, iface: string)
    ensures (exists ticks :: TicksOf(c, ticks) && Usable(After(cfg, ticks), iface)) <==> iface in ProbeList(c)
  {
    SortDedupSpec(ProbeSources(c));
    SortedDistinct(ProbeList(c));
    if iface in ProbeList(c) {
      var tick := Tick(ProbeList(c), {iface}, 0);
      var ticks := [tick];
      ProbedSpec(cfg, NO_HEALTH, ProbeList(c), tick, iface);
      assert ticks[..0] == [];
      assert After(cfg, ticks) == Probed(cfg, NO_HEALTH, ProbeList(c), tick);
      assert TicksOf(c, ticks) && Usable(After(cfg, ticks), iface);
    }
    if ticks :| TicksOf(c, ticks) && Usable(After(cfg, ticks), iface) && iface !in ProbeList(c) {
      NeverSeen(iface, ticks);
      HealthIsPerInterface(cfg, ticks, iface);
      assert false;
    }
  }

  /** The address is sent out a LAN interface. */
  ghost predicate SentOut(e: PolicyEngine, hm: HealthMap, c: Settings, ip: Addr) {
    var t := Compiled(e, hm);
    var w := Lookup(t, c.tableId, ip);
    w.Some? && t[w.value].rtype == Unicast && t[w.value].dev in c.lanInterfaces
  }

  /** Every probed interface answers at once. */
  function AllUp(c: Settings): seq<Tick> {
    [Tick(ProbeList(c), set i <- ProbeList(c), 0)]
  }

  lemma AllUpIsUp(cfg: HealthConfig, c: Settings)
    ensures TicksOf(c, AllUp(c)) && forall i :: Usable(After(cfg, AllUp(c)), i) <==> i in ProbeList(c)
  {
    hide ProbeList;
    ProbeListDistinct(c);
    var tick := AllUp(c)[0];
    assert AllUp(c)[..0] == [];
    assert After(cfg, AllUp(c)) == Probed(cfg, NO_HEALTH, ProbeList(c), tick);
    forall i ensures Usable(After(cfg, AllUp(c)), i) <==> i in ProbeList(c) {
      ProbedSpec(cfg, NO_HEALTH, ProbeList(c), tick, i);
    }
  }

  lemma ProbeListDistinct(c: Settings)
    ensures forall i, j :: 0 <= i < j < |ProbeList(c)| ==> ProbeList(c)[i] != ProbeList(c)[j]
  {
    SortDedupSpec(ProbeSources(c));
    SortedDistinct(ProbeList(c));
  }

  lemma UsableIsProbed(cfg: HealthConfig, c: Settings, ticks: seq<Tick>, iface: string)
    requires TicksOf(c, ticks) && Usable(After(cfg, ticks), iface)
    ensures iface in ProbeList(c)
  {
    hide Usable, ProbeList, TicksOf, After;
    UsableIffProbed(cfg, c, iface);
  }

  /** Better health never turns a unicast answer into an unreachable one. */
  lemma HealthIsMonotone(e: PolicyEngine, hm: HealthMap, better: HealthMap, ip: Addr)
    requires forall i :: Usable(hm, i) ==> Usable(better, i)
    requires !Blacklisted(e, ip) && forall rule <- e.rules :: rule.fallback == FallDrop
    requires Lookup(Compiled(e, hm), e.tableId, ip).Some?
    requires Compiled(e, hm)[Lookup(Compiled(e, hm), e.tableId, ip).value].rtype == Unicast
    ensures var w := Lookup(Compiled(e, better), e.tableId, ip);
            w.Some? && Compiled(e, better)[w.value].rtype == Unicast
  {
    hide Usable, Contains, Blacklisted, Trunc, MatcherDests, FirstAvailable;
    var w := Lookup(Compiled(e, hm), e.tableId, ip).value;
    var r, rule := EntryOrigin(e, hm, ip, w);
    BetterSpeaks(hm, better, rule.value);
    RuleEntry(e, better, ip, rule.value, r.destination);
    var w' := Lookup(Compiled(e, better), e.tableId, ip).value;
    var r', rule' := EntryOrigin(e, better, ip, w');
    if r'.routeType != Unicast {
      BetterSpeaks(hm, better, rule'.value);
      RuleEntry(e, hm, ip, rule'.value, r'.destination);
      assert KeyOf(r') == KeyOf(RouteFor(e, rule'.value, hm, r'.destination));
      assert Better(w, w') && Better(w', w);
      UnicastPrio(e, rule.value, hm, r.destination);
      UnreachablePrio(r');
    }
  }

  lemma BetterSpeaks(hm: HealthMap, better: HealthMap, rule: PolicyRule)
    requires forall i :: Usable(hm, i) ==> Usable(better, i)
    ensures FirstAvailable(rule.candidates, hm).Some? ==> FirstAvailable(rule.candidates, better).Some?
  {
    hide Usable;
  }

  /** A fail-closed rule has an entry under the key of its route, which covers the address. */
  lemma RuleEntry(e: PolicyEngine, hm: HealthMap, ip: Addr, rule: PolicyRule, d: Cidr)
    requires rule in e.rules && rule.fallback == FallDrop && d in MatcherDests(e, rule.matcher) && Contains(d, ip)
    ensures var k := KeyOf(RouteFor(e, rule, hm, d));
            && k in Compiled(e, hm).Keys && k.table == e.tableId && Contains(k.dest, ip)
            && Covers(Compiled(e, hm), e.tableId, ip)
  {
    hide Contains, MatcherDests, Trunc;
    var r := RouteFor(e, rule, hm, d);
    RuleRoutesSpec(e, rule, hm, r);
    DesiredRoutesSpec(e, hm, r);
    InstallKeys(map[], DesiredRoutes(e, hm), KeyOf(r));
    TruncSameMembers(d, ip);
  }

  lemma UnicastPrio(e: PolicyEngine, rule: PolicyRule, hm: HealthMap, d: Cidr)
    requires FirstAvailable(rule.candidates, hm).Some?
    ensures KeyOf(RouteFor(e, rule, hm, d)).prio == 50 || KeyOf(RouteFor(e, rule, hm, d)).prio == 100
  {
  }

  lemma UnreachablePrio(r: Route)
    requires r.routeType != Unicast
    ensures KeyOf(r).prio == 0 || KeyOf(r).prio == 1024
  {
  }

  /** Whether a claimed address can ever be sent out: exactly if it is with every probed
      interface up, for every strict configuration. */
  lemma ReachableExactly(rd: Reader, c: Settings, ifaces: seq<Interface>, e: PolicyEngine,
                         gateway6: Option<Addr>, wan: string, cfg: HealthConfig, ip: Addr)
    requires ReaderOk(rd) && Strict(rd, c) && NamesServable(rd, c, e)
    requires BuiltFrom(e, rd, c, ifaces, Some(wan), gateway6)
    requires !Blacklisted(e, ip) && Claimed(rd, c, e, ip)
    ensures (exists ticks :: TicksOf(c, ticks) && SentOut(e, After(cfg, ticks), c, ip))
            <==> SentOut(e, After(cfg, AllUp(c)), c, ip)
  {
    hide Compiled, Lookup, Strict, Claimed, Blacklisted, ProbeList, NamesServable, ReaderOk, TicksOf, Usable, After,
         AllUp, RuleCovers;
    AllUpIsUp(cfg, c);
    var up := After(cfg, AllUp(c));
    if ticks :| TicksOf(c, ticks) && SentOut(e, After(cfg, ticks), c, ip) {
      forall i | Usable(After(cfg, ticks), i) ensures Usable(up, i) { UsableIsProbed(cfg, c, ticks, i); }
      forall rule | rule in e.rules ensures rule.fallback == FallDrop {
        StrictRuleServes(rd, c, ifaces, e, gateway6, Some(wan), rule, ip);
      }
      HealthIsMonotone(e, After(cfg, ticks), up, ip);
      Trichotomy(rd, c, ifaces, e, gateway6, wan, up, ip);
    }
  }

  /** Every network with domains has a candidate on the probe list. */
  ghost predicate NetworksProbed(rd: Reader, c: Settings) {
    forall n <- c.networks, rule <- NetworkRules(rd, n, n.domains) :: exists i <- rule.candidates :: i in ProbeList(c)
  }

  /** The interfaces of LAN domains are not probed for their own sake.  A claimed address can
      ever be sent out if and only if some target or network names a LAN interface; otherwise it
      is unreachable in every health map the daemon can have. */
  lemma LanReachableIff(rd: Reader, c: Settings, ifaces: seq<Interface>, e: PolicyEngine,
                        gateway6: Option<Addr>, wan: string, cfg: HealthConfig, ip: Addr)
    requires ReaderOk(rd) && Strict(rd, c) && NamesServable(rd, c, e) && NetworksProbed(rd, c)
    requires BuiltFrom(e, rd, c, ifaces, Some(wan), gateway6)
    requires !Blacklisted(e, ip) && Claimed(rd, c, e, ip)
    ensures (exists ticks :: TicksOf(c, ticks) && SentOut(e, After(cfg, ticks), c, ip))
            <==> exists i <- c.lanInterfaces :: i in ProbeList(c)
  {
    hide Compiled, Lookup, Strict, Claimed, Blacklisted, ProbeList, NamesServable, ReaderOk, BuiltFrom, TicksOf, Usable,
         After, AllUp;
    if ticks :| TicksOf(c, ticks) && SentOut(e, After(cfg, ticks), c, ip) {
      var hm := After(cfg, ticks);
      Trichotomy(rd, c, ifaces, e, gateway6, wan, hm, ip);
      UsableIsProbed(cfg, c, ticks, Compiled(e, hm)[Lookup(Compiled(e, hm), c.tableId, ip).value].dev);
    }
    if exists i <- c.lanInterfaces :: i in ProbeList(c) {
      AllUpSendsOut(rd, c, ifaces, e, gateway6, wan, cfg, ip);
      AllUpIsUp(cfg, c);
    }
  }

  /** With every probed interface up, every rule over the address has an interface. */
  lemma AllUpSendsOut(rd: Reader, c: Settings, ifaces: seq<Interface>, e: PolicyEngine,
                      gateway6: Option<Addr>, wan: string, cfg: HealthConfig, ip: Addr)
    requires ReaderOk(rd) && Strict(rd, c) && NamesServable(rd, c, e) && NetworksProbed(rd, c)
    requires BuiltFrom(e, rd, c, ifaces, Some(wan), gateway6)
    requires !Blacklisted(e, ip) && Claimed(rd, c, e, ip)
    requires exists i <- c.lanInterfaces :: i in ProbeList(c)
    ensures SentOut(e, After(cfg, AllUp(c)), c, ip)
  {
    hide Compiled, Lookup, Strict, Claimed, Blacklisted, ProbeList, NamesServable, ReaderOk, Usable, After, AllUp,
         RuleCovers, MatcherDests, Contains;
    AllUpIsUp(cfg, c);
    var hm := After(cfg, AllUp(c));
    Trichotomy(rd, c, ifaces, e, gateway6, wan, hm, ip);
    var w := Lookup(Compiled(e, hm), c.tableId, ip);
    LookupCovers(e, hm, c, ip);
    var r, rule := EntryOrigin(e, hm, ip, w.value);
    ProbedCandidate(rd, c, ifaces, rule.value);
  }

  lemma LookupCovers(e: PolicyEngine, hm: HealthMap, c: Settings, ip: Addr)
    ensures var w := Lookup(Compiled(e, hm), c.tableId, ip);
            w.Some? ==> w.value in Compiled(e, hm) && Contains(w.value.dest, ip)
  {
  }

  lemma ProbedCandidate(rd: Reader, c: Settings, ifaces: seq<Interface>, rule: PolicyRule)
    requires ReaderOk(rd) && Strict(rd, c) && NetworksProbed(rd, c) && exists i <- c.lanInterfaces :: i in ProbeList(c)
    requires rule in SortBySource(BuildRules(rd, c, ifaces))
    ensures exists i <- rule.candidates :: i in ProbeList(c)
  {
    hide ProbeList, SortBySource, BuildRules, NetworkRules, ParseIpNet;
    StrictRules(rd, c, ifaces, rule);
    if t :| t in c.targets && rule in TargetRule(rd, t) {
      assert t.via[0] in t.via;
      ProbeListMember(c, t.via[0]);
      assert rule.candidates == t.via;
    } else if d :| d in c.lanDomains && rule in LanDomainRule(rd, c, d) {
      assert rule.candidates == c.lanInterfaces;
    }
  }

  /** What being unreachable means here: the address is claimed, and its traffic is refused. */
  lemma UnprobedLanIsUnreachable(rd: Reader, c: Settings, ifaces: seq<Interface>, e: PolicyEngine,
                                 gateway6: Option<Addr>, wan: string, cfg: HealthConfig, ticks: seq<Tick>, ip: Addr)
    requires ReaderOk(rd) && Strict(rd, c) && NamesServable(rd, c, e)
    requires BuiltFrom(e, rd, c, ifaces, Some(wan), gateway6) && TicksOf(c, ticks)
    requires forall i <- c.lanInterfaces :: i !in ProbeList(c)
    requires !Blacklisted(e, ip) && Claimed(rd, c, e, ip)
    ensures var t := Compiled(e, After(cfg, ticks));
            var w := Lookup(t, c.tableId, ip);
            w.Some? && t[w.value].rtype == Unreachable
  {
    hide Compiled, Lookup, Strict, Claimed, Blacklisted, ProbeList, NamesServable,
         ReaderOk, BuiltFrom, TicksOf, Usable, After;
    var hm := After(cfg, ticks);
    Trichotomy(rd, c, ifaces, e, gateway6, wan, hm, ip);
    var t := Compiled(e, hm);
    var w := Lookup(t, c.tableId, ip);
    if t[w.value].rtype != Unreachable { UsableIsProbed(cfg, c, ticks, t[w.value].dev); }
  }

  function DomainOnly(ip: Addr): Settings {
    Settings(Manual, "wan", "drop", 52000, 12000, ["wlan0"], [], [], [], map["nas" := [ip]], ["nas"], [], ["eth1"])
  }

  lemma DomainOnlyStrict(rd: Reader, ip: Addr)
    ensures Strict(rd, DomainOnly(ip)) && Resolve(DomainOnly(ip), "nas") == Some([ip])
  {
    assert ConfigCanonical("nas") == "nas";
  }

  /** The input: one LAN domain with a static answer, one LAN interface, no target.  The strict
      profile accepts it, and the answer is never sent out. */
  lemma DomainOnlyInput(rd: Reader, ip: Addr, ifaces: seq<Interface>, e: PolicyEngine, gateway6: Option<Addr>,
                        cfg: HealthConfig)
    requires ReaderOk(rd) && rd("nas").NotNumeric?
    requires BuiltFrom(e, rd, DomainOnly(ip), ifaces, Some("wlan0"), gateway6)
    ensures Strict(rd, DomainOnly(ip)) && Claimed(rd, DomainOnly(ip), e, ip)
    ensures forall ticks :: TicksOf(DomainOnly(ip), ticks) ==> !SentOut(e, After(cfg, ticks), DomainOnly(ip), ip)
  {
    hide FirstAvailable, Strict, SentOut, TicksOf, After, NamesServable, NamesFit, ConfigCanonical;
    var c := DomainOnly(ip);
    DomainOnlyStrict(rd, ip);
    PlainDomainsFit(rd, c, e);
    FitIsServable(rd, c, e);
    PlainDomainClaims(rd, c, e, ip);
    assert "nas" in c.lanDomains && ip in Resolve(c, "nas").value;
    ProbeListMember(c, "eth1");
    LanReachableIff(rd, c, ifaces, e, gateway6, "wlan0", cfg, ip);
  }
}
