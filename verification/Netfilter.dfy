/** One family's packet filter as the tool sees it: user chains and the OUTPUT hooks that
    jump to them; first-match verdicts; and the rule plan of one interface's chain. */
module Netfilter {
  import opened Net
  import opened Model
  import opened Seqs

  datatype Proto = Udp | Tcp | Icmp | IcmpV6 | OtherProto

  datatype Packet = Packet(dst: Addr, proto: Proto, sport: nat, dport: nat, established: bool)

  datatype FwRule =
    | DropDest(net: Cidr)
    | AcceptEstablished
    | AcceptDhcp
    | AcceptIcmp(v6: bool)
    | AcceptDest(dest: Cidr)
    | AcceptPort(dest: Cidr, proto: Proto, port: nat)
    | DropAll

  datatype Verdict = Accept | Drop

  datatype Hook = Hook(iface: string, chain: string)

  datatype Filter = Filter(chains: map<string, seq<FwRule>>, output: seq<Hook>)

  predicate IsDhcp(p: Packet) {
    p.proto == Udp && 67 <= p.sport <= 68 && 67 <= p.dport <= 68
  }

  function RuleVerdict(r: FwRule, p: Packet): Option<Verdict> {
    match r
    case DropDest(net) => if Contains(net, p.dst) then Some(Drop) else None
    case AcceptEstablished => if p.established then Some(Accept) else None
    case AcceptDhcp => if IsDhcp(p) then Some(Accept) else None
    case AcceptIcmp(v6) => if p.proto == (if v6 then IcmpV6 else Icmp) then Some(Accept) else None
    case AcceptDest(net) => if Contains(net, p.dst) then Some(Accept) else None
    case AcceptPort(net, proto, port) =>
      if Contains(net, p.dst) && p.proto == proto && p.dport == port then Some(Accept) else None
    case DropAll => Some(Drop)
  }

  /** First match; None returns to the calling chain. */
  function ChainVerdict(rules: seq<FwRule>, p: Packet): Option<Verdict> {
    if rules == [] then None
    else if RuleVerdict(rules[0], p).Some? then RuleVerdict(rules[0], p)
    else ChainVerdict(rules[1..], p)
  }

  /** Verdict of the OUTPUT hooks for a packet leaving `iface`; None reaches the policy. */
  function OutputVerdict(chains: map<string, seq<FwRule>>, output: seq<Hook>, iface: string,
                         p: Packet): Option<Verdict>
  {
    if output == [] then None
    else if output[0].iface == iface && output[0].chain in chains
            && ChainVerdict(chains[output[0].chain], p).Some?
    then ChainVerdict(chains[output[0].chain], p)
    else OutputVerdict(chains, output[1..], iface, p)
  }

  predicate HasHook(f: Filter, iface: string, chain: string) {
    Hook(iface, chain) in f.output
  }

  /** The chain leaves no packet undecided. */
  predicate Complete(f: Filter, chain: string) {
    chain in f.chains && f.chains[chain] != [] && f.chains[chain][|f.chains[chain]| - 1] == DropAll
  }

  /** No packet leaves the interface without passing a complete chain. */
  predicate Guarded(f: Filter, iface: string) {
    exists h <- f.output :: h.iface == iface && Complete(f, h.chain)
  }

  // ---------------------------------------------------------------- the plan of one chain

  function OfFamily(nets: seq<Cidr>, v6: bool): seq<FwRule> {
    FlatMap(nets, (n: Cidr) => if (n.addr.fam == V6) == v6 then [DropDest(n)] else [])
  }

  function AllowRules(a: (Option<Cidr>, Option<nat>)): seq<(bool, FwRule)> {
    if a.0.None? then []
    else
      var v6 := a.0.value.addr.fam == V6;
      match a.1
      case Some(port) => [(v6, AcceptPort(a.0.value, Udp, port)), (v6, AcceptPort(a.0.value, Tcp, port))]
      case None => [(v6, AcceptDest(a.0.value))]
  }

  type AllowList = seq<(Option<Cidr>, Option<nat>)>

  function AllowPlan(allowed: AllowList): seq<(bool, FwRule)> {
    FlatMap(allowed, (a: (Option<Cidr>, Option<nat>)) => AllowRules(a))
  }

  function AllowOf(plan: seq<(bool, FwRule)>, v6: bool): seq<FwRule> {
    FlatMap(plan, (x: (bool, FwRule)) => if x.0 == v6 then [x.1] else [])
  }

  /** The rules of one completed generation, in order. */
  function Plan(allowed: AllowList, blocked: seq<Cidr>, v6: bool): seq<FwRule> {
    OfFamily(blocked, v6) + [AcceptEstablished, AcceptDhcp, AcceptIcmp(v6)]
    + AllowOf(AllowPlan(allowed), v6) + [DropAll]
  }

  /** `lan_allow_rule_plan`: texts that are no network are skipped; a port yields two rules. */
  method LanAllowRulePlan(allowed: AllowList) returns (rules: seq<(bool, FwRule)>)
    ensures rules == AllowPlan(allowed)
  {
    rules := [];
    ghost var f := (a: (Option<Cidr>, Option<nat>)) => AllowRules(a);
    for i := 0 to |allowed|
      invariant rules == FlatMap(allowed[..i], f)
    {
      FlatMapStep(allowed, f, i);
      var target, port := allowed[i].0, allowed[i].1;
      if target.None? { continue; }
      var v6 := target.value.addr.fam == V6;
      match port {
        case Some(n) =>
          ghost var before := rules;
          rules := rules + [(v6, AcceptPort(target.value, Udp, n))];
          rules := rules + [(v6, AcceptPort(target.value, Tcp, n))];
          assert rules == before + [(v6, AcceptPort(target.value, Udp, n)), (v6, AcceptPort(target.value, Tcp, n))];
        case None =>
          rules := rules + [(v6, AcceptDest(target.value))];
      }
    }
    FullSlice(allowed);
  }

  /** Destination and port are on the allow list of the packet's family. */
  predicate Allowed(allowed: AllowList, p: Packet) {
    exists a <- allowed :: Admits(a, p)
  }

  predicate Admits(a: (Option<Cidr>, Option<nat>), p: Packet) {
    && a.0.Some? && Contains(a.0.value, p.dst)
    && (a.1.Some? ==> (p.proto == Udp || p.proto == Tcp) && p.dport == a.1.value)
  }

  lemma {:induction false} VerdictConcat(a: seq<FwRule>, b: seq<FwRule>, p: Packet)
    ensures ChainVerdict(a + b, p) == if ChainVerdict(a, p).Some? then ChainVerdict(a, p) else ChainVerdict(b, p)
  {
    if a == [] {
      assert a + b == b;
    } else {
      VerdictConcat(a[1..], b, p);
      assert (a + b)[0] == a[0] && (a + b)[1..] == a[1..] + b;
    }
  }

  /** A stretch of rules that can only say `v` says it exactly when one of them applies. */
  lemma {:induction false} UniformVerdict(rules: seq<FwRule>, v: Verdict, p: Packet)
    requires forall r <- rules :: RuleVerdict(r, p).Some? ==> RuleVerdict(r, p) == Some(v)
    ensures ChainVerdict(rules, p) == if exists r <- rules :: RuleVerdict(r, p).Some? then Some(v) else None
  {
    if rules != [] {
      UniformVerdict(rules[1..], v, p);
      assert rules == [rules[0]] + rules[1..];
    }
  }

  lemma BlockedVerdict(blocked: seq<Cidr>, v6: bool, p: Packet)
    requires v6 <==> p.dst.fam == V6
    ensures ChainVerdict(OfFamily(blocked, v6), p)
            == if exists n <- blocked :: Contains(n, p.dst) then Some(Drop) else None
  {
    var f := (n: Cidr) => if (n.addr.fam == V6) == v6 then [DropDest(n)] else [];
    var rules := OfFamily(blocked, v6);
    forall r | r in rules ensures exists n <- blocked :: r == DropDest(n) {
      FlatMapMember(blocked, f, r);
    }
    UniformVerdict(rules, Drop, p);
    if n :| n in blocked && Contains(n, p.dst) {
      FlatMapMember(blocked, f, DropDest(n));
      assert DropDest(n) in f(n);
      assert DropDest(n) in rules && RuleVerdict(DropDest(n), p).Some?;
    }
  }

  lemma AllowMember(allowed: AllowList, v6: bool, r: FwRule)
    ensures r in AllowOf(AllowPlan(allowed), v6) <==> exists a <- allowed :: (v6, r) in AllowRules(a)
  {
    FlatMapMember(AllowPlan(allowed), (x: (bool, FwRule)) => if x.0 == v6 then [x.1] else [], r);
    FlatMapMember(allowed, (a: (Option<Cidr>, Option<nat>)) => AllowRules(a), (v6, r));
  }

  lemma AllowRuleVerdict(a: (Option<Cidr>, Option<nat>), v6: bool, r: FwRule, p: Packet)
    requires (v6, r) in AllowRules(a)
    ensures RuleVerdict(r, p).Some? ==> RuleVerdict(r, p) == Some(Accept) && Admits(a, p)
  {
  }

  lemma AdmittingRule(a: (Option<Cidr>, Option<nat>), v6: bool, p: Packet) returns (r: FwRule)
    requires v6 <==> p.dst.fam == V6
    requires Admits(a, p)
    ensures (v6, r) in AllowRules(a) && RuleVerdict(r, p) == Some(Accept)
  {
    r := if a.1.None? then AcceptDest(a.0.value) else AcceptPort(a.0.value, p.proto, a.1.value);
    var own := AllowRules(a);
    assert own[0] in own && own[|own| - 1] in own;
  }

  lemma AllowedVerdict(allowed: AllowList, v6: bool, p: Packet)
    requires v6 <==> p.dst.fam == V6
    ensures ChainVerdict(AllowOf(AllowPlan(allowed), v6), p) == if Allowed(allowed, p) then Some(Accept) else None
  {
    hide AllowRules, Admits, RuleVerdict, AllowOf, AllowPlan;
    var rules := AllowOf(AllowPlan(allowed), v6);
    forall r | r in rules && RuleVerdict(r, p).Some?
      ensures RuleVerdict(r, p) == Some(Accept) && Allowed(allowed, p)
    {
      AllowMember(allowed, v6, r);
      var a :| a in allowed && (v6, r) in AllowRules(a);
      AllowRuleVerdict(a, v6, r, p);
    }
    UniformVerdict(rules, Accept, p);
    if a :| a in allowed && Admits(a, p) {
      var r := AdmittingRule(a, v6, p);
      AllowMember(allowed, v6, r);
    }
  }

  lemma FixedVerdict(v6: bool, p: Packet)
    ensures ChainVerdict([AcceptEstablished, AcceptDhcp, AcceptIcmp(v6)], p)
            == if p.established || IsDhcp(p) || p.proto == (if v6 then IcmpV6 else Icmp) then Some(Accept) else None
    ensures ChainVerdict([DropAll], p) == Some(Drop)
  {
    var icmp := [AcceptIcmp(v6)];
    var dhcp := [AcceptDhcp] + icmp;
    var mid := [AcceptEstablished] + dhcp;
    assert mid == [AcceptEstablished, AcceptDhcp, AcceptIcmp(v6)];
    assert icmp[1..] == [] && dhcp[1..] == icmp && mid[1..] == dhcp;
    assert ChainVerdict(icmp, p) == RuleVerdict(AcceptIcmp(v6), p);
    assert ChainVerdict(dhcp, p)
           == if RuleVerdict(AcceptDhcp, p).Some? then RuleVerdict(AcceptDhcp, p) else ChainVerdict(icmp, p);
  }

  /** Verdict of a completed generation, for every allow list, block list and packet of the
      family: a blacklisted destination is dropped even inside an established connection;
      anything else is accepted exactly when it is established, a DHCP client request, ICMP of
      the family, or allowed; the rest is dropped and nothing falls through. */
  lemma PlanVerdict(allowed: AllowList, blocked: seq<Cidr>, v6: bool, p: Packet)
    requires v6 <==> p.dst.fam == V6
    ensures ChainVerdict(Plan(allowed, blocked, v6), p)
            == if exists n <- blocked :: Contains(n, p.dst) then Some(Drop)
               else if p.established || IsDhcp(p) || p.proto == (if v6 then IcmpV6 else Icmp) || Allowed(allowed, p)
               then Some(Accept)
               else Some(Drop)
  {
    hide ChainVerdict, OfFamily, AllowOf, AllowPlan, Allowed, IsDhcp;
    var mid := [AcceptEstablished, AcceptDhcp, AcceptIcmp(v6)];
    var deny, allow := OfFamily(blocked, v6), AllowOf(AllowPlan(allowed), v6);
    BlockedVerdict(blocked, v6, p);
    AllowedVerdict(allowed, v6, p);
    FixedVerdict(v6, p);
    VerdictConcat(deny + mid + allow, [DropAll], p);
    VerdictConcat(deny + mid, allow, p);
    VerdictConcat(deny, mid, p);
  }

  /** The same with nothing left to look up: what a completed chain lets out. */
  lemma AcceptedExactly(allowed: AllowList, blocked: seq<Cidr>, v6: bool, p: Packet)
    requires v6 <==> p.dst.fam == V6
    ensures ChainVerdict(Plan(allowed, blocked, v6), p).Some?
    ensures ChainVerdict(Plan(allowed, blocked, v6), p) == Some(Accept) <==>
            && (forall n <- blocked :: !Contains(n, p.dst))
            && (|| p.established
                || (p.proto == Udp && p.sport in {67, 68} && p.dport in {67, 68})
                || (p.proto == Icmp && !v6) || (p.proto == IcmpV6 && v6)
                || exists a <- allowed :: a.0.Some? && Contains(a.0.value, p.dst)
                     && (a.1.None? || (p.proto in {Udp, Tcp} && p.dport == a.1.value)))
  {
    hide ChainVerdict, Plan, Contains;
    PlanVerdict(allowed, blocked, v6, p);
  }

  /** A complete chain decides every packet. */
  lemma {:induction false} CompleteDecides(rules: seq<FwRule>, p: Packet)
    requires rules != [] && rules[|rules| - 1] == DropAll
    ensures ChainVerdict(rules, p).Some?
  {
    if |rules| > 1 { CompleteDecides(rules[1..], p); }
  }

  /** Behind a guard no packet reaches the OUTPUT policy undecided. */
  lemma {:induction false} GuardedDecides(f: Filter, iface: string, p: Packet)
    requires Guarded(f, iface)
    ensures OutputVerdict(f.chains, f.output, iface, p).Some?
    decreases |f.output|
  {
    var h :| h in f.output && h.iface == iface && Complete(f, h.chain);
    if h == f.output[0] {
      CompleteDecides(f.chains[h.chain], p);
    } else {
      var rest := f.(output := f.output[1..]);
      assert h in rest.output && Complete(rest, h.chain);
      GuardedDecides(rest, iface, p);
    }
  }
}
