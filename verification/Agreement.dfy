/** `decide` against the forwarding table: first match in list order versus longest prefix.
    For address rules they name the same rule on every address exactly when no rule is
    hidden behind an earlier, shorter one. */
module Agreement {
  import opened Net
  import opened Model
  import opened Config
  import opened Policy
  import opened Fib
  import opened Claims

  /** Host and network rules that never fall back to the WAN. */
  ghost predicate AddressRules(e: PolicyEngine) {
    forall rule <- e.rules :: (rule.matcher.HostIp? || rule.matcher.CidrNet?) && rule.fallback != FallWan
  }

  function RuleNet(rule: PolicyRule): Cidr
    requires rule.matcher.HostIp? || rule.matcher.CidrNet?
  {
    if rule.matcher.HostIp? then HostNet(rule.matcher.ip) else rule.matcher.net
  }

  ghost predicate DistinctBlocks(e: PolicyEngine)
    requires AddressRules(e)
  {
    forall i, j :: 0 <= i < j < |e.rules| ==> Trunc(RuleNet(e.rules[i])) != Trunc(RuleNet(e.rules[j]))
  }

  predicate RuleHolds(rule: PolicyRule, ip: Addr) {
    match rule.matcher
    case HostIp(target) => target == ip
    case CidrNet(net) => Contains(net, ip)
    case _ => false
  }

  function FirstHolding(e: PolicyEngine, ip: Addr): Option<nat> {
    FirstIndex(e.rules, (r: PolicyRule) => RuleHolds(r, ip))
  }

  lemma HoldsIsContains(rule: PolicyRule, ip: Addr)
    requires rule.matcher.HostIp? || rule.matcher.CidrNet?
    ensures RuleHolds(rule, ip) <==> Contains(RuleNet(rule), ip)
  {
    if rule.matcher.HostIp? { HostNetHoldsOne(rule.matcher.ip, ip); }
  }

  /** The route the table holds for rule `k`. */
  function RouteOf(e: PolicyEngine, hm: HealthMap, k: nat): Route
    requires k < |e.rules| && (e.rules[k].matcher.HostIp? || e.rules[k].matcher.CidrNet?)
  {
    RouteFor(e, e.rules[k], hm, RuleNet(e.rules[k]))
  }

  lemma RuleRouteDesired(e: PolicyEngine, hm: HealthMap, k: nat)
    requires AddressRules(e) && k < |e.rules|
    ensures RouteOf(e, hm, k) in DesiredRoutes(e, hm)
    ensures MatcherDests(e, e.rules[k].matcher) == [RuleNet(e.rules[k])]
  {
    var rule := e.rules[k];
    assert rule in e.rules && RuleNet(rule) in MatcherDests(e, rule.matcher);
    RuleRoutesSpec(e, rule, hm, RouteOf(e, hm, k));
    DesiredRoutesSpec(e, hm, RouteOf(e, hm, k));
  }

  /** Over a non-blacklisted address every compiled entry is the route of one covering rule. */
  lemma EntryOfRule(e: PolicyEngine, hm: HealthMap, ip: Addr, key: RouteKey) returns (k: nat)
    requires AddressRules(e) && DistinctBlocks(e) && !Blacklisted(e, ip)
    requires key in Compiled(e, hm) && Contains(key.dest, ip)
    ensures k < |e.rules| && RuleHolds(e.rules[k], ip)
    ensures key == KeyOf(RouteOf(e, hm, k)) && Compiled(e, hm)[key] == HopOf(RouteOf(e, hm, k))
  {
    var r, rule := EntryOrigin(e, hm, ip, key);
    k :| 0 <= k < |e.rules| && e.rules[k] == rule.value;
    RuleRouteDesired(e, hm, k);
    HoldsIsContains(e.rules[k], ip);
  }

  /** A covering rule has its route in the table, unchanged by the others. */
  lemma RuleHasEntry(e: PolicyEngine, hm: HealthMap, ip: Addr, k: nat)
    requires AddressRules(e) && DistinctBlocks(e) && !Blacklisted(e, ip)
    requires k < |e.rules| && RuleHolds(e.rules[k], ip)
    ensures var key := KeyOf(RouteOf(e, hm, k));
            && key in Compiled(e, hm) && Compiled(e, hm)[key] == HopOf(RouteOf(e, hm, k))
            && key.table == e.tableId && Contains(key.dest, ip)
            && key.dest.prefix == RuleNet(e.rules[k]).prefix
  {
    var r := RouteOf(e, hm, k);
    RuleRouteDesired(e, hm, k);
    HoldsIsContains(e.rules[k], ip);
    TruncSameMembers(r.destination, ip);
    InstallKeys(map[], DesiredRoutes(e, hm), KeyOf(r));
    var j := EntryOfRule(e, hm, ip, KeyOf(r));
    assert Trunc(RuleNet(e.rules[j])) == Trunc(RuleNet(e.rules[k]));
    assert j == k;
  }

  ghost predicate Longest(e: PolicyEngine, ip: Addr, k: nat)
    requires AddressRules(e)
  {
    && k < |e.rules| && RuleHolds(e.rules[k], ip)
    && forall j :: 0 <= j < |e.rules| && RuleHolds(e.rules[j], ip)
                   ==> RuleNet(e.rules[j]).prefix <= RuleNet(e.rules[k]).prefix
  }

  /** The rule with the longest block answers the lookup. */
  lemma LongestWins(e: PolicyEngine, hm: HealthMap, ip: Addr, k: nat)
    requires AddressRules(e) && DistinctBlocks(e) && !Blacklisted(e, ip)
    requires Longest(e, ip, k)
    ensures Lookup(Compiled(e, hm), e.tableId, ip) == Some(KeyOf(RouteOf(e, hm, k)))
  {
    hide FirstAvailable, Install, DesiredRoutes, MatcherDests;
    var t, key := Compiled(e, hm), KeyOf(RouteOf(e, hm, k));
    RuleHasEntry(e, hm, ip, k);
    forall other | other in t && other.table == e.tableId && Contains(other.dest, ip)
      ensures Better(key, other)
    {
      var j := EntryOfRule(e, hm, ip, other);
      RuleHasEntry(e, hm, ip, j);
      if key.dest.prefix == other.dest.prefix {
        SameLengthSameBlock(key.dest, other.dest, ip);
        TruncIdempotent(RuleNet(e.rules[j]));
        TruncIdempotent(RuleNet(e.rules[k]));
        assert Trunc(RuleNet(e.rules[j])) == Trunc(RuleNet(e.rules[k]));
        assert j == k;
      }
    }
    InstallCanonical(map[], DesiredRoutes(e, hm));
    LookupIs(t, e.tableId, ip, key);
  }

  lemma LongestExists(e: PolicyEngine, hm: HealthMap, ip: Addr) returns (k: nat)
    requires AddressRules(e) && DistinctBlocks(e) && !Blacklisted(e, ip)
    requires FirstHolding(e, ip).Some?
    ensures Longest(e, ip, k)
  {
    var f := FirstHolding(e, ip).value;
    RuleHasEntry(e, hm, ip, f);
    assert Covers(Compiled(e, hm), e.tableId, ip);
    var w := Lookup(Compiled(e, hm), e.tableId, ip).value;
    k := EntryOfRule(e, hm, ip, w);
    RuleHasEntry(e, hm, ip, k);
    forall j | 0 <= j < |e.rules| && RuleHolds(e.rules[j], ip)
      ensures RuleNet(e.rules[j]).prefix <= RuleNet(e.rules[k]).prefix
    {
      RuleHasEntry(e, hm, ip, j);
      assert Better(w, KeyOf(RouteOf(e, hm, j)));
    }
  }

  /** First match and longest prefix give the same answer for `ip`. */
  ghost predicate Agrees(e: PolicyEngine, hm: HealthMap, ip: Addr)
    requires AddressRules(e)
  {
    var w := Lookup(Compiled(e, hm), e.tableId, ip);
    match FirstHolding(e, ip)
    case None => w.None?
    case Some(k) => w == Some(KeyOf(RouteOf(e, hm, k))) && Compiled(e, hm)[w.value] == HopOf(RouteOf(e, hm, k))
  }

  /** Wherever a rule's block lies inside an earlier rule's, it is itself overlaid by longer
      rules on all of its non-blacklisted addresses. */
  ghost predicate NoInversion(e: PolicyEngine)
    requires AddressRules(e)
  {
    forall i, j :: 0 <= i < j < |e.rules|
      && RuleNet(e.rules[i]).prefix < RuleNet(e.rules[j]).prefix
      && Overlap(RuleNet(e.rules[i]), RuleNet(e.rules[j]))
      ==> forall ip: Addr | Contains(RuleNet(e.rules[j]), ip) && !Blacklisted(e, ip) ::
            exists k :: 0 <= k < |e.rules| && Contains(RuleNet(e.rules[k]), ip)
                        && RuleNet(e.rules[k]).prefix > RuleNet(e.rules[j]).prefix
  }

  /** Without an inversion the first rule that holds is the longest. */
  lemma FirstIsLongest(e: PolicyEngine, ip: Addr, f: nat, k: nat)
    requires AddressRules(e) && DistinctBlocks(e) && NoInversion(e) && !Blacklisted(e, ip)
    requires Longest(e, ip, k)
    requires f <= k && RuleHolds(e.rules[f], ip)
    ensures f == k
  {
    hide Contains, Overlap, Trunc, Blacklisted;
    var a, b := RuleNet(e.rules[f]), RuleNet(e.rules[k]);
    HoldsIsContains(e.rules[f], ip);
    HoldsIsContains(e.rules[k], ip);
    if f != k && a.prefix == b.prefix {
      SameLengthSameBlock(a, b, ip);
      assert false;
    } else if f != k {
      OverlapIffCommonAddress(a, b);
      var l :| 0 <= l < |e.rules| && Contains(RuleNet(e.rules[l]), ip) && RuleNet(e.rules[l]).prefix > b.prefix;
      HoldsIsContains(e.rules[l], ip);
      assert false;
    }
  }

  lemma AgreesOn(e: PolicyEngine, hm: HealthMap, ip: Addr)
    requires AddressRules(e) && DistinctBlocks(e) && NoInversion(e) && !Blacklisted(e, ip)
    ensures Agrees(e, hm, ip)
  {
    hide Compiled, Contains, NoInversion, Blacklisted, DistinctBlocks, RuleHolds;
    var f := FirstHolding(e, ip);
    if f.None? {
      NoneHoldsNoneCovers(e, hm, ip);
    } else {
      var k := LongestExists(e, hm, ip);
      LongestWins(e, hm, ip, k);
      RuleHasEntry(e, hm, ip, k);
      FirstIsLongest(e, ip, f.value, k);
    }
  }

  lemma NoneHoldsNoneCovers(e: PolicyEngine, hm: HealthMap, ip: Addr)
    requires AddressRules(e) && DistinctBlocks(e) && !Blacklisted(e, ip)
    requires FirstHolding(e, ip).None?
    ensures Lookup(Compiled(e, hm), e.tableId, ip).None?
  {
    hide Compiled, Contains, Blacklisted, DistinctBlocks, RuleHolds;
    var w := Lookup(Compiled(e, hm), e.tableId, ip);
    if w.Some? {
      var k := EntryOfRule(e, hm, ip, w.value);
    }
  }

  lemma InversionDisagrees(e: PolicyEngine, hm: HealthMap, i: nat, j: nat, ip: Addr)
    requires AddressRules(e) && DistinctBlocks(e) && !Blacklisted(e, ip)
    requires i < j < |e.rules|
    requires RuleNet(e.rules[i]).prefix < RuleNet(e.rules[j]).prefix
    requires Overlap(RuleNet(e.rules[i]), RuleNet(e.rules[j])) && Contains(RuleNet(e.rules[j]), ip)
    requires forall k :: 0 <= k < |e.rules| && Contains(RuleNet(e.rules[k]), ip)
                         ==> RuleNet(e.rules[k]).prefix <= RuleNet(e.rules[j]).prefix
    ensures !Agrees(e, hm, ip)
  {
    hide Contains, Overlap, Compiled, Trunc, Blacklisted;
    var a, b := RuleNet(e.rules[i]), RuleNet(e.rules[j]);
    OverlapIffCommonAddress(a, b);
    var both: Addr :| Contains(a, both) && Contains(b, both);
    Nested(b, a, both, ip);
    HoldsIsContains(e.rules[i], ip);
    HoldsIsContains(e.rules[j], ip);
    forall k | 0 <= k < |e.rules| && RuleHolds(e.rules[k], ip)
      ensures RuleNet(e.rules[k]).prefix <= b.prefix
    {
      HoldsIsContains(e.rules[k], ip);
    }
    LongestWins(e, hm, ip, j);
    var f := FirstHolding(e, ip).value;
    assert f <= i;
    assert Trunc(RuleNet(e.rules[f])) != Trunc(b);
  }

  /** Exactness: with distinct blocks, `decide` and the kernel name the same rule for every
      non-blacklisted address if and only if there is no inversion; health plays no part. */
  lemma AgreementExact(e: PolicyEngine, hm: HealthMap)
    requires AddressRules(e) && DistinctBlocks(e)
    ensures (forall ip: Addr | !Blacklisted(e, ip) :: Agrees(e, hm, ip)) <==> NoInversion(e)
  {
    hide Agrees, Contains, Overlap, Blacklisted, Trunc;
    if NoInversion(e) {
      forall ip: Addr | !Blacklisted(e, ip) ensures Agrees(e, hm, ip) {
        AgreesOn(e, hm, ip);
      }
    } else {
      var i, j :| 0 <= i < j < |e.rules|
        && RuleNet(e.rules[i]).prefix < RuleNet(e.rules[j]).prefix
        && Overlap(RuleNet(e.rules[i]), RuleNet(e.rules[j]))
        && !(forall ip: Addr | Contains(RuleNet(e.rules[j]), ip) && !Blacklisted(e, ip) ::
              exists k :: 0 <= k < |e.rules| && Contains(RuleNet(e.rules[k]), ip)
                          && RuleNet(e.rules[k]).prefix > RuleNet(e.rules[j]).prefix);
      var ip: Addr :| Contains(RuleNet(e.rules[j]), ip) && !Blacklisted(e, ip)
        && !(exists k :: 0 <= k < |e.rules| && Contains(RuleNet(e.rules[k]), ip)
                         && RuleNet(e.rules[k]).prefix > RuleNet(e.rules[j]).prefix);
      InversionDisagrees(e, hm, i, j, ip);
    }
  }

  lemma FirstMatchIsFirstHolding(rd: Reader, e: PolicyEngine, text: string, ip: Addr)
    requires AddressRules(e)
    ensures FirstMatch(rd, e, text, Some(ip)) == FirstHolding(e, ip)
  {
    assert forall r <- e.rules :: Matches(rd, r.matcher, text, Some(ip)) <==> RuleHolds(r, ip);
    SameFirstIndex(e.rules, (r: PolicyRule) => Matches(rd, r.matcher, text, Some(ip)),
                   (r: PolicyRule) => RuleHolds(r, ip));
  }

  lemma {:induction false} SameFirstIndex(rules: seq<PolicyRule>, p: PolicyRule -> bool, q: PolicyRule -> bool)
    requires forall r <- rules :: p(r) <==> q(r)
    ensures FirstIndex(rules, p) == FirstIndex(rules, q)
  {
    if rules != [] { SameFirstIndex(rules[1..], p, q); }
  }

  lemma NumericText(rd: Reader, e: PolicyEngine, text: string, ip: Addr)
    requires ReaderOk(rd) && rd(text) == IpText(ip)
    ensures ResolvedIp(rd, e, text) == Some(ip)
  {
  }

  /** What a speaking rule's route says is what its decision says. */
  lemma DecisionIsRoute(e: PolicyEngine, hm: HealthMap, k: nat, text: string, ip: Addr)
    requires AddressRules(e) && k < |e.rules|
    ensures var d, h := RuleDecision(e, e.rules[k], hm, text, Some(ip)), HopOf(RouteOf(e, hm, k));
            && d.matchedRule == Some(e.rules[k].name) && d.table == e.tableId && d.resolvedIp == Some(ip)
            && (d.selected.None? <==> h.rtype == Unreachable)
            && (forall i :: d.selected == Some(i) <==> h.rtype == Unicast && h.dev == i)
  {
    assert e.rules[k] in e.rules;
  }

  /** The compiled form refines the simple one: without an inversion, what `decide` reports
      for a numeric address is what the kernel does with it, for every health map. */
  lemma DecideMatchesKernel(rd: Reader, e: PolicyEngine, hm: HealthMap, text: string, ip: Addr)
    requires AddressRules(e) && DistinctBlocks(e) && NoInversion(e) && !Blacklisted(e, ip)
    requires ReaderOk(rd) && rd(text) == IpText(ip)
    ensures var d, t := DecisionFor(rd, e, text, hm), Compiled(e, hm);
            var w := Lookup(t, e.tableId, ip);
            && d.resolvedIp == Some(ip)
            && (d.matchedRule.None? <==> w.None?)
            && d.table == (if w.None? then MAIN_TABLE else e.tableId)
            && (w.Some? ==>
                  && (d.selected.None? <==> t[w.value].rtype == Unreachable)
                  && (forall i :: d.selected == Some(i)
                                  <==> t[w.value].rtype == Unicast && t[w.value].dev == i))
  {
    hide Compiled, Blacklisted, NoInversion, DistinctBlocks, FirstHolding, FirstMatch, ResolvedIp,
         RuleDecision, RouteOf, HopOf, KeyOf;
    AgreesOn(e, hm, ip);
    NumericText(rd, e, text, ip);
    FirstMatchIsFirstHolding(rd, e, text, ip);
    var k := FirstMatch(rd, e, text, Some(ip));
    if k.Some? {
      FirstMatchInRange(rd, e, text, ip);
      DecisionIsRoute(e, hm, k.value, text, ip);
    }
  }

  lemma FirstMatchInRange(rd: Reader, e: PolicyEngine, text: string, ip: Addr)
    ensures var k := FirstMatch(rd, e, text, Some(ip)); k.Some? ==> k.value < |e.rules|
  {
  }
}
