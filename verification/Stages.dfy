/** The stages of a reconciliation, each a loop over commands that may fail, each with the
    claim its intermediate states satisfy. */
module Stages {
  import opened Net
  import opened Model
  import opened Text
  import opened Seqs
  import opened Fib
  import opened Netfilter
  import opened Kernel
  import opened Netlink
  import opened Firewall
  import opened Generations
  import opened Transaction
  import opened Convergence

  // ---------------------------------------------------------------- firewall stage

  /** Interfaces that get an egress chain: sorted, without repetitions. */
  function FirewallInterfaces(d: DesiredState): seq<string> {
    SortDedup(d.lanInterfaces + FlatMap(d.firewallWhitelist, (a: Allowance) => [a.iface]))
  }

  type Target = (Option<Cidr>, Option<nat>)

  function WhitelistEntry(a: Allowance, iface: string): seq<Target> {
    if a.iface == iface then [(a.net, a.port)] else []
  }

  function RouteEntry(r: Route, iface: string): seq<Target> {
    if r.outputInterface == iface then [(Some(r.destination), None)] else []
  }

  function WhitelistFor(ws: seq<Allowance>, iface: string): AllowList {
    FlatMap(ws, (a: Allowance) => WhitelistEntry(a, iface))
  }

  function RoutesFor(rs: seq<Route>, iface: string): AllowList {
    FlatMap(rs, (r: Route) => RouteEntry(r, iface))
  }

  /** What the chain of an interface admits: its whitelist entries, or without any whitelist
      the destinations of its routes. */
  function AllowFor(d: DesiredState, iface: string): AllowList {
    if d.firewallWhitelist != [] then WhitelistFor(d.firewallWhitelist, iface) else RoutesFor(d.routes, iface)
  }

  function PlanFor(d: DesiredState, iface: string, fam: Family): seq<FwRule> {
    Plan(AllowFor(d, iface), d.blacklist, fam == V6)
  }

  type TargetMap = map<string, AllowList>

  function Get(m: TargetMap, iface: string): AllowList {
    if iface in m then m[iface] else []
  }

  function Push(m: TargetMap, iface: string, t: Target): TargetMap {
    m[iface := Get(m, iface) + [t]]
  }

  lemma WhitelistStep(ws: seq<Allowance>, k: nat, m: TargetMap)
    requires k < |ws| && forall i :: Get(m, i) == WhitelistFor(ws[..k], i)
    ensures forall i :: Get(Push(m, ws[k].iface, (ws[k].net, ws[k].port)), i) == WhitelistFor(ws[..k + 1], i)
  {
    forall i ensures Get(Push(m, ws[k].iface, (ws[k].net, ws[k].port)), i) == WhitelistFor(ws[..k + 1], i) {
      FlatMapStep(ws, (a: Allowance) => WhitelistEntry(a, i), k);
      assert WhitelistFor(ws[..k + 1], i) == WhitelistFor(ws[..k], i) + WhitelistEntry(ws[k], i);
      assert Get(m, i) == WhitelistFor(ws[..k], i);
    }
  }

  lemma RoutesStep(rs: seq<Route>, k: nat, m: TargetMap)
    requires k < |rs| && forall i :: Get(m, i) == RoutesFor(rs[..k], i)
    ensures var m' := Push(m, rs[k].outputInterface, (Some(rs[k].destination), None));
            forall i :: Get(m', i) == RoutesFor(rs[..k + 1], i)
  {
    var m' := Push(m, rs[k].outputInterface, (Some(rs[k].destination), None));
    forall i ensures Get(m', i) == RoutesFor(rs[..k + 1], i) {
      FlatMapStep(rs, (r: Route) => RouteEntry(r, i), k);
      assert RoutesFor(rs[..k + 1], i) == RoutesFor(rs[..k], i) + RouteEntry(rs[k], i);
      assert Get(m, i) == RoutesFor(rs[..k], i);
    }
  }

  /** The grouping loop of `apply_firewall`, over the whitelist if there is one. */
  method CollectTargets(d: DesiredState) returns (m: TargetMap)
    ensures forall i :: Get(m, i) == AllowFor(d, i)
  {
    if d.firewallWhitelist != [] {
      m := CollectWhitelist(d.firewallWhitelist);
    } else {
      m := CollectRoutes(d.routes);
    }
  }

  method CollectWhitelist(ws: seq<Allowance>) returns (m: TargetMap)
    ensures forall i :: Get(m, i) == WhitelistFor(ws, i)
  {
    m := map[];
    for k := 0 to |ws|
      invariant forall i :: Get(m, i) == WhitelistFor(ws[..k], i)
    {
      WhitelistStep(ws, k, m);
      m := Push(m, ws[k].iface, (ws[k].net, ws[k].port));
    }
    FullSlice(ws);
  }

  method CollectRoutes(rs: seq<Route>) returns (m: TargetMap)
    ensures forall i :: Get(m, i) == RoutesFor(rs, i)
  {
    m := map[];
    for k := 0 to |rs|
      invariant forall i :: Get(m, i) == RoutesFor(rs[..k], i)
    {
      RoutesStep(rs, k, m);
      m := Push(m, rs[k].outputInterface, (Some(rs[k].destination), None));
    }
    FullSlice(rs);
  }

  /** Only the packet filters moved. */
  ghost predicate FilterOnly(s0: Snapshot, s: Snapshot) {
    s.routes == s0.routes && s.rules == s0.rules && s.main == s0.main
  }

  ghost predicate PairwiseApart(ifaces: seq<string>) {
    forall i, j :: 0 <= i < |ifaces| && 0 <= j < |ifaces| && i != j ==>
      ifaces[i] != ifaces[j] && NamesApart(ifaces[i], ifaces[j])
  }

  /** The interface obeys the desired policy in both families. */
  ghost predicate Governed(fw: Filters, iface: string, d: DesiredState) {
    && Settled(fw.v4, iface, PlanFor(d, iface, V4))
    && Settled(fw.v6, iface, PlanFor(d, iface, V6))
  }

  ghost predicate GovernedAll(fw: Filters, ifaces: seq<string>, d: DesiredState) {
    forall i <- ifaces :: Governed(fw, i, d)
  }

  /** A guard that was there still is. */
  ghost predicate GuardKept(fw0: Filters, fw: Filters, iface: string) {
    forall fam :: Sound(fw0.Of(fam), iface) ==>
      Sound(fw.Of(fam), iface) && (OwnGuard(fw0.Of(fam), iface) ==> OwnGuard(fw.Of(fam), iface))
  }

  lemma SettledKept(f0: Filter, f: Filter, iface: string, plan: seq<FwRule>, other: string, otherPlan: seq<FwRule>)
    requires other != iface && NamesApart(other, iface) && Between(f0, f, other, otherPlan)
    requires Settled(f0, iface, plan)
    ensures Settled(f, iface, plan)
  {
    ForeignRun(f0, f, iface, other, otherPlan);
    hide ChainName;
    var t :| t in [ChainA(iface), ChainB(iface)] && t in f0.chains && f0.chains[t] == plan && HasHook(f0, iface, t)
             && forall c :: HasHook(f0, iface, c) && OwnChain(iface, c) ==> c == t;
    assert t in f.chains && f.chains[t] == plan && HasHook(f, iface, t);
  }

  /** What a step of a run for `iface` does to another interface, or to its own guard. */
  lemma StepKeeps(s0: Snapshot, s: Snapshot, fam: Family, iface: string, plan: seq<FwRule>, other: string,
                  d: DesiredState)
    requires FwStep(s0, s, fam, iface, plan) && EndsInDrop(plan)
    requires other == iface || NamesApart(iface, other)
    ensures GuardKept(s0.fw, s.fw, other)
    ensures other != iface && Governed(s0.fw, other, d) ==> Governed(s.fw, other, d)
  {
    hide Settled, PlanFor, ChainName, OwnGuard, Sound, Between;
    var f0, f := s0.fw.Of(fam), s.fw.Of(fam);
    assert Between(f0, f, iface, plan) by { StepIsBetween(s0, s, fam, iface, plan); }
    if other != iface {
      if Settled(f0, other, PlanFor(d, other, fam)) {
        SettledKept(f0, f, other, PlanFor(d, other, fam), iface, plan);
      }
      ForeignRun(f0, f, other, iface, plan);
      ForeignKeepsGuard(f0, f, other);
    } else if Sound(f0, iface) {
      NeverOpens(f0, f, iface, plan);
      if OwnGuard(f0, iface) { OwnGuardKept(f0, f, iface, plan); }
    }
  }

  lemma StepIsBetween(s0: Snapshot, s: Snapshot, fam: Family, iface: string, plan: seq<FwRule>)
    requires FwStep(s0, s, fam, iface, plan)
    ensures Between(s0.fw.Of(fam), s.fw.Of(fam), iface, plan)
  {
  }

  /** All steps of one interface's run, seen from every interface of the list. */
  ghost predicate PolicyStep(s0: Snapshot, s: Snapshot, iface: string, ifaces: seq<string>, d: DesiredState) {
    && FilterOnly(s0, s)
    && forall i <- ifaces :: i == iface || NamesApart(iface, i) ==>
         GuardKept(s0.fw, s.fw, i) && (i != iface && Governed(s0.fw, i, d) ==> Governed(s.fw, i, d))
  }

  lemma FamilyStepIsPolicyStep(s0: Snapshot, s: Snapshot, fam: Family, iface: string, ifaces: seq<string>,
                               d: DesiredState)
    requires FwStep(s0, s, fam, iface, PlanFor(d, iface, fam))
    ensures PolicyStep(s0, s, iface, ifaces, d)
  {
    PlanEndsInDrop(AllowFor(d, iface), d.blacklist, fam == V6);
    forall i | i in ifaces && (i == iface || NamesApart(iface, i))
      ensures GuardKept(s0.fw, s.fw, i) && (i != iface && Governed(s0.fw, i, d) ==> Governed(s.fw, i, d))
    {
      StepKeeps(s0, s, fam, iface, PlanFor(d, iface, fam), i, d);
    }
  }

  lemma PolicyStepTransitive(s0: Snapshot, s1: Snapshot, s: Snapshot, iface: string, ifaces: seq<string>,
                             d: DesiredState)
    requires PolicyStep(s0, s1, iface, ifaces, d) && PolicyStep(s1, s, iface, ifaces, d)
    ensures PolicyStep(s0, s, iface, ifaces, d)
  {
    hide Governed, NamesApart, Sound, OwnGuard;
  }

  /** `apply_egress_policy`: IPv4, then IPv6; a failure leaves what is done in place. */
  method ApplyEgressPolicy(h: Host, iface: string, d: DesiredState, allowed: AllowList, ghost ifaces: seq<string>)
    returns (ok: bool, ghost steps: seq<Snapshot>)
    requires allowed == AllowFor(d, iface)
    modifies h`fw, h`trace, h`failed, h`results
    ensures h.trace == old(h.trace) + steps
    ensures forall s <- steps + [h.Now()] :: PolicyStep(old(h.Now()), s, iface, ifaces, d)
    ensures ok ==> Governed(h.fw, iface, d)
    ensures h.failed >= old(h.failed) && (!ok ==> h.failed > old(h.failed))
  {
    hide FwStep, PolicyStep, Settled, Plan, Swapped;
    ghost var more;
    ghost var s0 := h.Now();
    ok, steps := ApplyFamily(h, V4, iface, allowed, d.blacklist);
    forall s | s in steps + [h.Now()] ensures PolicyStep(s0, s, iface, ifaces, d) {
      FamilyStepIsPolicyStep(s0, s, V4, iface, ifaces, d);
    }
    if !ok { return; }
    ghost var s1 := h.Now();
    assert s1 in steps + [h.Now()];
    ok, more := ApplyFamily(h, V6, iface, allowed, d.blacklist);
    forall s | s in more + [h.Now()] ensures PolicyStep(s0, s, iface, ifaces, d) {
      FamilyStepIsPolicyStep(s1, s, V6, iface, ifaces, d);
      PolicyStepTransitive(s0, s1, s, iface, ifaces, d);
    }
    OtherFamilyStays(s1, h.Now(), iface, PlanFor(d, iface, V6));
    assert h.Now() in more + [h.Now()];
    steps := steps + more;
  }

  lemma OtherFamilyStays(s1: Snapshot, s: Snapshot, iface: string, plan: seq<FwRule>)
    ensures FwStep(s1, s, V6, iface, plan) ==> s.fw.v4 == s1.fw.v4
  {
  }

  /** What every state of the firewall stage satisfies. */
  ghost predicate GuardStep(s0: Snapshot, s: Snapshot, ifaces: seq<string>) {
    && FilterOnly(s0, s)
    && (PairwiseApart(ifaces) ==> forall i <- ifaces :: GuardKept(s0.fw, s.fw, i))
  }

  lemma ApartFromSelf(ifaces: seq<string>, k: nat, i: string)
    requires PairwiseApart(ifaces) && k < |ifaces| && i in ifaces
    ensures i == ifaces[k] || NamesApart(ifaces[k], i)
  {
    var j :| 0 <= j < |ifaces| && ifaces[j] == i;
  }

  lemma PolicyIsGuardStep(s0: Snapshot, s1: Snapshot, s: Snapshot, ifaces: seq<string>, k: nat, d: DesiredState)
    requires k < |ifaces| && GuardStep(s0, s1, ifaces) && PolicyStep(s1, s, ifaces[k], ifaces, d)
    ensures GuardStep(s0, s, ifaces)
    ensures PairwiseApart(ifaces) && GovernedAll(s1.fw, ifaces[..k], d) ==> GovernedAll(s.fw, ifaces[..k], d)
  {
    hide Governed, NamesApart, Sound, OwnGuard, PairwiseApart;
    if PairwiseApart(ifaces) {
      forall i | i in ifaces ensures i == ifaces[k] || NamesApart(ifaces[k], i) { ApartFromSelf(ifaces, k, i); }
      forall i | i in ifaces[..k] ensures i in ifaces && i != ifaces[k] { PrefixApart(ifaces, k, i); }
    }
  }

  lemma PrefixApart(ifaces: seq<string>, k: nat, i: string)
    requires PairwiseApart(ifaces) && k < |ifaces| && i in ifaces[..k]
    ensures i in ifaces && i != ifaces[k]
  {
  }

  /** `apply_firewall` */
  method ApplyFirewall(h: Host, d: DesiredState, ifaces: seq<string>)
    returns (ok: bool, ghost steps: seq<Snapshot>)
    requires forall i, j :: 0 <= i < j < |ifaces| ==> ifaces[i] != ifaces[j]
    modifies h`fw, h`trace, h`failed, h`results
    ensures h.trace == old(h.trace) + steps
    ensures forall s <- steps + [h.Now()] :: GuardStep(old(h.Now()), s, ifaces)
    ensures ok && PairwiseApart(ifaces) ==> GovernedAll(h.fw, ifaces, d)
    ensures h.failed >= old(h.failed) && (!ok ==> h.failed > old(h.failed))
  {
    hide PolicyStep, GuardStep, Governed, PairwiseApart, AllowFor;
    var targets := CollectTargets(d);
    ghost var s0 := h.Now();
    steps, ok := [], true;
    GuardStepRefl(s0, ifaces);
    for k := 0 to |ifaces|
      invariant h.trace == old(h.trace) + steps
      invariant forall s <- steps + [h.Now()] :: GuardStep(s0, s, ifaces)
      invariant PairwiseApart(ifaces) ==> GovernedAll(h.fw, ifaces[..k], d)
      invariant forall j :: k <= j < |ifaces| ==> Get(targets, ifaces[j]) == AllowFor(d, ifaces[j])
      invariant h.failed >= old(h.failed)
    {
      var iface := ifaces[k];
      var allowed := Get(targets, iface);
      targets := targets - {iface};
      ghost var s1 := h.Now();
      assert s1 in steps + [h.Now()];
      ghost var more;
      ok, more := ApplyEgressPolicy(h, iface, d, allowed, ifaces);
      forall s | s in more + [h.Now()] ensures GuardStep(s0, s, ifaces) {
        PolicyIsGuardStep(s0, s1, s, ifaces, k, d);
      }
      assert h.Now() in more + [h.Now()];
      PolicyIsGuardStep(s0, s1, h.Now(), ifaces, k, d);
      steps := steps + more;
      if !ok { return; }
      assert ifaces[..k + 1] == ifaces[..k] + [iface];
    }
    FullSlice(ifaces);
  }

  lemma GuardStepRefl(s: Snapshot, ifaces: seq<string>)
    ensures GuardStep(s, s, ifaces)
  {
  }

  // ---------------------------------------------------------------- rule stages

  function RuleSet(rs: seq<RpdbRule>): set<RpdbRule> {
    set r | r in rs
  }

  lemma RuleSetStep(rs: seq<RpdbRule>, i: nat)
    requires i < |rs|
    ensures RuleSet(rs[..i + 1]) == RuleSet(rs[..i]) + {rs[i]} <= RuleSet(rs)
    ensures rs[..|rs|] == rs
  {
    assert rs[..i + 1] == rs[..i] + [rs[i]];
  }

  /** The rule loop of the apply: stops at the first failure, without undoing. */
  method AddRules(h: Host, rs: seq<RpdbRule>) returns (ok: bool, ghost steps: seq<Snapshot>)
    modifies h`rules, h`trace, h`failed, h`results
    ensures h.trace == old(h.trace) + steps
    ensures forall s <- steps + [h.Now()] ::
              RulesOnly(old(h.Now()), s) && old(h.rules) <= s.rules <= old(h.rules) + RuleSet(rs)
    ensures ok ==> h.rules == old(h.rules) + RuleSet(rs)
    ensures h.failed >= old(h.failed) && (!ok ==> h.failed > old(h.failed))
  {
    steps, ok := [], true;
    for i := 0 to |rs|
      invariant h.trace == old(h.trace) + steps
      invariant forall s <- steps + [h.Now()] ::
                  RulesOnly(old(h.Now()), s) && old(h.rules) <= s.rules <= old(h.rules) + RuleSet(rs)
      invariant h.rules == old(h.rules) + RuleSet(rs[..i])
      invariant h.failed >= old(h.failed)
    {
      ghost var more;
      RuleSetStep(rs, i);
      assert h.Now() in steps + [h.Now()];
      ok, more := EnsureRpdbRule(h, rs[i]);
      steps := steps + more;
      if !ok { return; }
    }
    FullSlice(rs);
  }

  /** Obsolete rules are removed as far as the kernel lets them. */
  method RemoveRules(h: Host, rs: seq<RpdbRule>) returns (ghost steps: seq<Snapshot>)
    modifies h`rules, h`trace, h`failed, h`results
    ensures h.trace == old(h.trace) + steps
    ensures forall s <- steps + [h.Now()] ::
              RulesOnly(old(h.Now()), s) && old(h.rules) - RuleSet(rs) <= s.rules <= old(h.rules)
    ensures h.failed == old(h.failed) ==> h.rules == old(h.rules) - RuleSet(rs)
    ensures h.failed >= old(h.failed)
  {
    steps := [];
    for i := 0 to |rs|
      invariant h.trace == old(h.trace) + steps
      invariant forall s <- steps + [h.Now()] ::
                  RulesOnly(old(h.Now()), s) && old(h.rules) - RuleSet(rs) <= s.rules <= old(h.rules)
      invariant h.failed >= old(h.failed)
      invariant h.failed == old(h.failed) ==> h.rules == old(h.rules) - RuleSet(rs[..i])
    {
      ghost var more;
      RuleSetStep(rs, i);
      var ok;
      assert h.Now() in steps + [h.Now()];
      ok, more := RemoveRpdbRule(h, rs[i]);
      steps := steps + more;
    }
    FullSlice(rs);
  }

  // ---------------------------------------------------------------- route stages

  /** The add loop: state by state the table of a longer prefix of the list. */
  method AddRoutes(h: Host, rs: seq<Route>) returns (done: nat, ghost steps: seq<Snapshot>)
    modifies h`routes, h`trace, h`failed, h`results
    ensures h.trace == old(h.trace) + steps
    ensures done <= |rs| && |steps| == done
    ensures forall i :: 0 <= i < done ==>
              RoutesOnly(old(h.Now()), steps[i]) && steps[i].routes == Install(old(h.routes), rs[..i + 1])
    ensures h.routes == Install(old(h.routes), rs[..done])
    ensures h.failed >= old(h.failed)
    ensures done == |rs| ==> h.failed == old(h.failed)
    ensures done < |rs| ==> h.failed > old(h.failed) || rs[done].destination.prefix == 0
  {
    steps, done := [], 0;
    while done < |rs|
      invariant done <= |rs| && |steps| == done
      invariant h.trace == old(h.trace) + steps
      invariant forall i :: 0 <= i < done ==>
                  RoutesOnly(old(h.Now()), steps[i]) && steps[i].routes == Install(old(h.routes), rs[..i + 1])
      invariant h.routes == Install(old(h.routes), rs[..done])
      invariant h.failed == old(h.failed)
    {
      assert rs[..done + 1][..done] == rs[..done];
      var ok;
      ghost var more;
      ok, more := AddRoute(h, rs[done]);
      if !ok { return; }
      steps, done := steps + more, done + 1;
    }
  }

  /** The removal loop: failures are ignored, nothing but matching entries disappears. */
  method RemoveRoutes(h: Host, rs: seq<Route>) returns (ghost steps: seq<Snapshot>)
    modifies h`routes, h`trace, h`failed, h`results
    ensures h.trace == old(h.trace) + steps
    ensures forall s <- steps + [h.Now()] ::
              RoutesOnly(old(h.Now()), s) && Shrunk(old(h.routes), s.routes, rs)
    ensures h.Now() == old(h.Now()) || h.Now() in steps
    ensures Issued(old(h.results), h.results, |rs|, h.failed == old(h.failed))
    ensures h.routes == DeleteAll(old(h.routes), Succeeded(rs, h.results[|old(h.results)|..]))
    ensures h.failed == old(h.failed) + Misses(h.results[|old(h.results)|..])
    ensures h.failed == old(h.failed) ==> h.routes == DeleteAll(old(h.routes), rs)
    ensures h.failed >= old(h.failed)
  {
    steps := [];
    hide Issued, Shrunk, DeleteAll, Succeeded, DeleteMatches;
    ghost var before := h.results;
    ghost var oks: seq<bool> := [];
    IssuedNone(before);
    NothingDeleted(h.routes, rs);
    for i := 0 to |rs|
      invariant h.trace == old(h.trace) + steps
      invariant forall s <- steps + [h.Now()] ::
                  RoutesOnly(old(h.Now()), s) && Shrunk(old(h.routes), s.routes, rs)
      invariant h.Now() == old(h.Now()) || h.Now() in steps
      invariant Issued(before, h.results, i, h.failed == old(h.failed))
      invariant h.results == before + oks && |oks| == i
      invariant h.routes == DeleteAll(old(h.routes), Succeeded(rs[..i], oks))
      invariant h.failed == old(h.failed) + Misses(oks)
      invariant h.failed >= old(h.failed)
    {
      assert rs[..i + 1][..i] == rs[..i];
      assert h.Now() in steps + [h.Now()];
      ghost var clean := h.failed == old(h.failed);
      ShrunkStep(old(h.routes), h.routes, rs, rs[i]);
      var ok;
      ghost var more;
      ok, more := DeleteRoute(h, rs[i]);
      IssuedOne(before, before + oks, i, clean, ok);
      DeleteStep(old(h.routes), rs, i, oks, ok);
      MissesStep(oks, ok);
      oks, steps := oks + [ok], steps + more;
    }
    FullSlice(rs);
    assert h.results[|before|..] == oks;
    if h.failed == old(h.failed) {
      NoneFailed(before, oks);
      AllSucceeded(rs, oks);
    }
  }

  lemma NothingDeleted(t: Table, rs: seq<Route>)
    ensures DeleteAll(t, Succeeded(rs[..0], [])) == t && Shrunk(t, t, rs)
  {
  }

  lemma DeleteStep(t: Table, rs: seq<Route>, i: nat, oks: seq<bool>, ok: bool)
    requires i < |rs| && |oks| == i
    ensures var before := DeleteAll(t, Succeeded(rs[..i], oks));
            DeleteAll(t, Succeeded(rs[..i + 1], oks + [ok])) == if ok then Delete(before, rs[i]) else before
  {
    assert rs[..i + 1][..i] == rs[..i] && (oks + [ok])[..i] == oks;
    var some := Succeeded(rs[..i], oks);
    assert (oks + [ok])[i] == ok;
    if ok {
      var more := some + [rs[i]];
      assert more[..|more| - 1] == some && more[|more| - 1] == rs[i];
      assert DeleteAll(t, more) == Delete(DeleteAll(t, some), rs[i]);
      assert Succeeded(rs[..i + 1], oks + [ok]) == more;
    } else {
      assert Succeeded(rs[..i + 1], oks + [ok]) == some;
    }
  }

  /** Re-adding issues one command for each route that is not a default. */
  function AddCommands(rs: seq<Route>): nat {
    if rs == [] then 0
    else AddCommands(rs[..|rs| - 1]) + if rs[|rs| - 1].destination.prefix == 0 then 0 else 1
  }

  lemma NothingAdded(t: Table, rs: seq<Route>)
    ensures Install(t, rs[..0]) == t
  {
  }

  lemma InstallStep(t: Table, rs: seq<Route>, i: nat)
    requires i < |rs|
    ensures Install(t, rs[..i + 1]) == Replace(Install(t, rs[..i]), rs[i])
  {
    assert rs[..i + 1][..i] == rs[..i];
  }

  /** Re-adding with failures ignored. */
  method ReAddRoutes(h: Host, rs: seq<Route>) returns (ghost steps: seq<Snapshot>)
    modifies h`routes, h`trace, h`failed, h`results
    ensures h.trace == old(h.trace) + steps
    ensures forall s <- steps + [h.Now()] :: RoutesOnly(old(h.Now()), s)
    ensures h.failed == old(h.failed) && (forall r <- rs :: r.destination.prefix != 0)
            ==> h.routes == Install(old(h.routes), rs)
    ensures Issued(old(h.results), h.results, AddCommands(rs), h.failed == old(h.failed))
    ensures h.failed >= old(h.failed)
  {
    hide Issued, Install;
    steps := [];
    IssuedNone(h.results);
    NothingAdded(h.routes, rs);
    for i := 0 to |rs|
      invariant h.trace == old(h.trace) + steps
      invariant forall s <- steps + [h.Now()] :: RoutesOnly(old(h.Now()), s)
      invariant h.failed >= old(h.failed)
      invariant h.failed == old(h.failed) && (forall r <- rs :: r.destination.prefix != 0)
                ==> h.routes == Install(old(h.routes), rs[..i])
      invariant Issued(old(h.results), h.results, AddCommands(rs[..i]), h.failed == old(h.failed))
    {
      assert rs[..i + 1][..i] == rs[..i];
      assert rs[i] in rs;
      var ok;
      ghost var more;
      assert h.Now() in steps + [h.Now()];
      ghost var issued, clean, t := h.results, h.failed == old(h.failed), h.routes;
      ok, more := AddRoute(h, rs[i]);
      IssuedOne(old(h.results), issued, AddCommands(rs[..i]), clean, ok);
      assert issued + [] == issued;
      InstallStep(old(h.routes), rs, i);
      steps := steps + more;
    }
    FullSlice(rs);
  }

  /** Between deleting and re-adding, the rollback passes through the table with the added
      routes deleted, unless deleting them changes nothing. */
  ghost predicate Passes(t: Table, undo: seq<Snapshot>, toAdd: seq<Route>) {
    DeleteAll(t, toAdd) == t || exists s <- undo :: s.routes == DeleteAll(t, toAdd)
  }

  /** `rollback`: how many commands it issues, and what it achieves if they all succeed. */
  method Rollback(h: Host, toAdd: seq<Route>, owned: seq<Route>) returns (ghost steps: seq<Snapshot>)
    modifies h`routes, h`trace, h`failed, h`results
    ensures h.trace == old(h.trace) + steps
    ensures forall s <- steps + [h.Now()] :: RoutesOnly(old(h.Now()), s)
    ensures Issued(old(h.results), h.results, |toAdd| + AddCommands(owned), h.failed == old(h.failed))
    ensures h.failed == old(h.failed) ==> Passes(old(h.routes), steps, toAdd)
    ensures h.failed == old(h.failed) && (forall r <- owned :: r.destination.prefix != 0)
            ==> h.routes == Install(DeleteAll(old(h.routes), toAdd), owned)
    ensures h.failed >= old(h.failed)
  {
    hide Install, DeleteAll, Shrunk, Issued;
    ghost var f0, s0, r0 := h.failed, h.Now(), h.results;
    ghost var undo := RemoveRoutes(h, toAdd);
    ghost var s1, r1, f1 := h.Now(), h.results, h.failed;
    assert forall s <- undo + [s1] :: RoutesOnly(s0, s);
    assert s1 in undo + [s1];
    ghost var redo := ReAddRoutes(h, owned);
    ghost var s2 := h.Now();
    forall s | s in redo + [s2] ensures RoutesOnly(s0, s) {
      assert RoutesOnly(s1, s);
    }
    steps := undo + redo;
    IssuedMore(r0, r1, h.results, |toAdd|, AddCommands(owned), f1 == f0, h.failed == f1);
    assert s1 in undo ==> s1 in steps;
  }

  // ---------------------------------------------------------------- main table stage

  /** Every state of the stage keeps the WAN default once it is there. */
  ghost predicate WanStep(s0: Snapshot, s: Snapshot, wan: Option<string>) {
    MainOnly(s0, s) && (wan.Some? && HasDefault(s0.main, wan.value) ==> HasDefault(s.main, wan.value))
  }

  /** The interfaces other than the WAN that a route uses. */
  function OtherInterfaces(rs: seq<Route>, wan: Option<string>): set<string> {
    set r <- rs | r.outputInterface != "" && Some(r.outputInterface) != wan :: r.outputInterface
  }

  ghost predicate Prepared(m0: MainTable, m: MainTable, wan: Option<string>) {
    if wan.Some? then Prioritized(m0, m, wan.value) else m == m0
  }

  /** The WAN's entries are copied, then the defaults of all other interfaces in use are gone. */
  ghost predicate MainSettled(m0: MainTable, m: MainTable, wan: Option<string>, rs: seq<Route>) {
    exists m1 :: Prepared(m0, m1, wan) && m == WithoutDefaults(m1, OtherInterfaces(rs, wan))
  }

  /** A settled main table: the WAN's metric-50 default goes through a gateway the WAN had, and its
      subnets have their copies; every other entry is as it was, or a default of another interface
      in use, which is gone. */
  lemma SettledExactly(m0: MainTable, m: MainTable, wan: string, rs: seq<Route>)
    requires MainSettled(m0, m, Some(wan), rs)
    ensures var k := MainKey(DEFAULT_NET, 50);
            (exists j :: GatewayDefault(m0, wan, j)) ==>
              k in m && m[k].dev == wan && exists j :: GatewayDefault(m0, wan, j) && m[k].via == m0[j].via
    ensures forall j | SubnetRoute(m0, wan, j) ::
              MainKey(j.dest, 50) in m && m[MainKey(j.dest, 50)] == MainHop(wan, None)
    ensures forall k: MainKey | !SubnetCopied(m0, wan, k)
                                && !(k == MainKey(DEFAULT_NET, 50) && exists j :: GatewayDefault(m0, wan, j)) ::
              if k in m0 && k.dest == DEFAULT_NET
                 && exists r <- rs :: r.outputInterface == m0[k].dev != "" && m0[k].dev != wan
              then k !in m else SameAt(m0, m, k)
  {
    hide Prioritized;
    var m1 :| Prepared(m0, m1, Some(wan)) && m == WithoutDefaults(m1, OtherInterfaces(rs, Some(wan)));
    PrioritizedExactly(m0, m1, wan);
    forall k: MainKey | !SubnetCopied(m0, wan, k)
                        && !(k == MainKey(DEFAULT_NET, 50) && exists j :: GatewayDefault(m0, wan, j))
      ensures if k in m0 && k.dest == DEFAULT_NET
                 && exists r <- rs :: r.outputInterface == m0[k].dev != "" && m0[k].dev != wan
              then k !in m else SameAt(m0, m, k)
    {
      assert SameAt(m0, m1, k);
    }
  }

  lemma OtherStep(m: MainTable, rs: seq<Route>, i: nat, wan: Option<string>)
    requires i < |rs|
    ensures var dev := rs[i].outputInterface;
            WithoutDefaults(m, OtherInterfaces(rs[..i + 1], wan))
            == var before := WithoutDefaults(m, OtherInterfaces(rs[..i], wan));
               if dev != "" && Some(dev) != wan then WithoutDefaults(before, {dev}) else before
  {
    assert rs[..i + 1] == rs[..i] + [rs[i]];
  }

  /** WAN first, then the rogue defaults of every other interface a desired route uses. */
  method SettleMain(h: Host, d: DesiredState, wan: Option<string>) returns (ok: bool, ghost steps: seq<Snapshot>)
    modifies h`main, h`trace, h`failed, h`results
    ensures h.trace == old(h.trace) + steps
    ensures forall s <- steps + [h.Now()] :: WanStep(old(h.Now()), s, wan)
    ensures ok && h.failed == old(h.failed) ==>
              forall r <- d.routes :: r.outputInterface != "" && Some(r.outputInterface) != wan
                                      ==> !HasDefault(h.main, r.outputInterface)
    ensures h.failed == old(h.failed) ==> MainSettled(old(h.main), h.main, wan, d.routes)
    ensures h.failed >= old(h.failed) && (!ok ==> h.failed > old(h.failed))
  {
    hide Prioritized, WithoutDefaults, OnlyDefaultsGo, OtherInterfaces;
    steps, ok := [], true;
    ghost var more;
    ghost var s0 := h.Now();
    if wan.Some? {
      ok, steps := PrioritizeWan(h, wan.value);
      if !ok { return; }
      assert h.Now() in steps + [h.Now()];
    }
    ghost var m1 := h.main;
    NoOthers(m1, d.routes, wan);
    for i := 0 to |d.routes|
      invariant h.trace == old(h.trace) + steps
      invariant forall s <- steps + [h.Now()] :: WanStep(s0, s, wan)
      invariant h.failed == old(h.failed) ==>
                  Prepared(s0.main, m1, wan) && h.main == WithoutDefaults(m1, OtherInterfaces(d.routes[..i], wan))
      invariant h.failed >= old(h.failed)
      invariant h.failed == old(h.failed) ==>
                  forall r <- d.routes[..i] :: r.outputInterface != "" && Some(r.outputInterface) != wan
                                               ==> !HasDefault(h.main, r.outputInterface)
    {
      var r := d.routes[i];
      OtherStep(m1, d.routes, i, wan);
      if r.outputInterface != "" && Some(r.outputInterface) != wan {
        ghost var s1 := h.Now();
        assert s1 in steps + [h.Now()];
        ok, more := RemoveDefaultRoutes(h, r.outputInterface);
        forall s | s in more + [h.Now()]
          ensures WanStep(s0, s, wan) && forall dev :: !HasDefault(s1.main, dev) ==> !HasDefault(s.main, dev)
        {
          DefaultsCarry(s1.main, s.main, r.outputInterface, wan);
        }
        assert h.Now() in more + [h.Now()];
        steps := steps + more;
        if !ok { return; }
        if h.failed == old(h.failed) { AllDefaultsGone(s1.main, h.main, r.outputInterface); }
      }
    }
    FullSlice(d.routes);
  }

  lemma NoOthers(m: MainTable, rs: seq<Route>, wan: Option<string>)
    ensures WithoutDefaults(m, OtherInterfaces(rs[..0], wan)) == m
  {
  }

  lemma DefaultsCarry(m0: MainTable, m: MainTable, dev: string, wan: Option<string>)
    requires DefaultsKept(m0, m, dev) && NoNewDefaults(m0, m) && Some(dev) != wan
    ensures wan.Some? && HasDefault(m0, wan.value) ==> HasDefault(m, wan.value)
    ensures forall other :: !HasDefault(m0, other) ==> !HasDefault(m, other)
  {
    if wan.Some? && HasDefault(m0, wan.value) {
      var k :| k in m0.Keys && IsDefaultOn(m0, k, wan.value);
      assert IsDefaultOn(m, k, wan.value);
    }
    forall other | HasDefault(m, other) ensures HasDefault(m0, other) {
      var k :| k in m.Keys && IsDefaultOn(m, k, other);
      assert IsDefaultOn(m0, k, other);
    }
  }

  /** The verification loop over the listing. */
  method Verify(h: Host, table: nat, desired: seq<Route>) returns (r: Option<bool>)
    modifies h`failed, h`results
    ensures r == Some(true) ==> Observed(h.routes, table, desired)
    ensures h.failed == old(h.failed) ==> r == Some(Observed(h.routes, table, desired))
    ensures h.failed >= old(h.failed)
  {
    var o, lines := h.RouteList(table);
    if o == SpawnFailure { return None; }
    for i := 0 to |desired|
      invariant forall d <- desired[..i] :: (Trunc(d.destination), d.routeType) in lines
    {
      assert desired[i] in desired;
      if (Trunc(desired[i].destination), desired[i].routeType) !in lines { return Some(false); }
    }
    return Some(true);
  }
}
