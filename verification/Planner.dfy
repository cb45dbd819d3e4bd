/** The diff between what is owned and what is desired, and the check that keeps a default
    route and a blacklist bypass out of the policy table. */
module Planner {
  import opened Net
  import opened Model
  import opened Seqs
  import opened Fib

  datatype ActualState = ActualState(
    routes: seq<Route>, rules: seq<RpdbRule>, allocatedTable: nat, rulePriority: nat)

  datatype PlanError = DefaultRoute(r: Route) | OverlapsBlacklist(r: Route)

  predicate LeadsToLan(d: DesiredState, r: Route) {
    r.routeType == Unicast && r.outputInterface in d.lanInterfaces
  }

  predicate SafeRoute(d: DesiredState, r: Route) {
    && r.destination.prefix != 0
    && (LeadsToLan(d, r) ==> forall b <- d.blacklist :: !Overlap(b, r.destination))
  }

  predicate ValidDesired(d: DesiredState) {
    forall r <- d.routes :: SafeRoute(d, r)
  }

  /** `validate_desired_state` */
  method ValidateDesired(d: DesiredState) returns (e: Option<PlanError>)
    ensures e.None? <==> ValidDesired(d)
    ensures e.Some? ==> e.value.r in d.routes && !SafeRoute(d, e.value.r)
    ensures e.Some? ==> (e.value.DefaultRoute? <==> e.value.r.destination.prefix == 0)
  {
    for i := 0 to |d.routes|
      invariant forall r <- d.routes[..i] :: SafeRoute(d, r)
    {
      var r := d.routes[i];
      assert r in d.routes;
      if r.destination.prefix == 0 { return Some(DefaultRoute(r)); }
      if LeadsToLan(d, r) && exists b <- d.blacklist :: Overlap(b, r.destination) {
        return Some(OverlapsBlacklist(r));
      }
    }
    return None;
  }

  function StaleRoutes(a: ActualState, d: DesiredState): seq<Route> {
    FlatMap(a.routes, (r: Route) => if r.table == a.allocatedTable && r !in d.routes then [r] else [])
  }

  function StaleRules(a: ActualState, d: DesiredState): seq<RpdbRule> {
    FlatMap(a.rules, (r: RpdbRule) =>
      if r.table == a.allocatedTable && r.priority == a.rulePriority && r !in d.rules then [r] else [])
  }

  function Diff(a: ActualState, d: DesiredState): StateDiff {
    StateDiff(Minus(d.routes, a.routes), StaleRoutes(a, d), Minus(d.rules, a.rules), StaleRules(a, d))
  }

  /** `plan_diff` */
  method PlanDiff(a: ActualState, d: DesiredState) returns (r: Result<StateDiff, PlanError>)
    ensures r.Ok? <==> ValidDesired(d)
    ensures r.Ok? ==> r.value == Diff(a, d)
    ensures r.Ok? ==>
              && (forall x :: x in r.value.routesToAdd <==> x in d.routes && x !in a.routes)
              && (forall x :: x in r.value.rulesToAdd <==> x in d.rules && x !in a.rules)
              && (forall x :: x in r.value.routesToRemove
                    <==> x in a.routes && x !in d.routes && x.table == a.allocatedTable)
              && (forall x :: x in r.value.rulesToRemove
                    <==> x in a.rules && x !in d.rules && x == RpdbRule(a.rulePriority, a.allocatedTable))
  {
    DiffExactly(a, d);
    var e := ValidateDesired(d);
    if e.Some? { return Err(e.value); }
    var toAdd := Missing(d.routes, a.routes);
    var toRemove: seq<Route> := [];
    ghost var f := (r: Route) => if r.table == a.allocatedTable && r !in d.routes then [r] else [];
    for i := 0 to |a.routes|
      invariant toRemove == FlatMap(a.routes[..i], f)
    {
      FlatMapStep(a.routes, f, i);
      if a.routes[i].table == a.allocatedTable && a.routes[i] !in d.routes {
        toRemove := toRemove + [a.routes[i]];
      }
    }
    FullSlice(a.routes);
    var rulesToAdd := Missing(d.rules, a.rules);
    var rulesToRemove := Obsolete(a, d);
    return Ok(StateDiff(toAdd, toRemove, rulesToAdd, rulesToRemove));
  }

  method Missing<A(==)>(wanted: seq<A>, have: seq<A>) returns (xs: seq<A>)
    ensures xs == Minus(wanted, have)
  {
    xs := [];
    ghost var f := (x: A) => if x in have then [] else [x];
    for i := 0 to |wanted|
      invariant xs == FlatMap(wanted[..i], f)
    {
      FlatMapStep(wanted, f, i);
      if wanted[i] !in have { xs := xs + [wanted[i]]; }
    }
    FullSlice(wanted);
  }

  method Obsolete(a: ActualState, d: DesiredState) returns (rs: seq<RpdbRule>)
    ensures rs == StaleRules(a, d)
  {
    rs := [];
    ghost var f := (r: RpdbRule) =>
      if r.table == a.allocatedTable && r.priority == a.rulePriority && r !in d.rules then [r] else [];
    for i := 0 to |a.rules|
      invariant rs == FlatMap(a.rules[..i], f)
    {
      FlatMapStep(a.rules, f, i);
      if a.rules[i].table == a.allocatedTable && a.rules[i].priority == a.rulePriority && a.rules[i] !in d.rules {
        rs := rs + [a.rules[i]];
      }
    }
    FullSlice(a.rules);
  }

  lemma StaleRouteMember(a: ActualState, d: DesiredState, r: Route)
    ensures r in StaleRoutes(a, d) <==> r in a.routes && r.table == a.allocatedTable && r !in d.routes
  {
    FlatMapMember(a.routes, (r: Route) => if r.table == a.allocatedTable && r !in d.routes then [r] else [], r);
  }

  lemma StaleRuleMember(a: ActualState, d: DesiredState, r: RpdbRule)
    ensures r in StaleRules(a, d)
            <==> r in a.rules && r.table == a.allocatedTable && r.priority == a.rulePriority && r !in d.rules
  {
    FlatMapMember(a.rules, (r: RpdbRule) =>
      if r.table == a.allocatedTable && r.priority == a.rulePriority && r !in d.rules then [r] else [], r);
  }

  lemma DiffExactly(a: ActualState, d: DesiredState)
    ensures forall x :: x in Diff(a, d).routesToAdd <==> x in d.routes && x !in a.routes
    ensures forall x :: x in Diff(a, d).rulesToAdd <==> x in d.rules && x !in a.rules
    ensures forall x :: x in Diff(a, d).routesToRemove
              <==> x in a.routes && x !in d.routes && x.table == a.allocatedTable
    ensures forall x :: x in Diff(a, d).rulesToRemove
              <==> x in a.rules && x !in d.rules && x == RpdbRule(a.rulePriority, a.allocatedTable)
  {
    forall x { MinusMember(d.routes, a.routes, x); }
    forall x { MinusMember(d.rules, a.rules, x); }
    forall x { StaleRouteMember(a, d, x); }
    forall x { StaleRuleMember(a, d, x); }
  }

  /** Owned records carry the allocated identifiers unless they are desired anyway. */
  predicate Owns(a: ActualState, d: DesiredState) {
    && (forall r <- a.routes :: r.table == a.allocatedTable || r in d.routes)
    && (forall r <- a.rules :: (r.table == a.allocatedTable && r.priority == a.rulePriority) || r in d.rules)
  }

  /** Convergence: removing and adding what the diff says turns the owned state into the
      desired one, as sets of routes and of rules, exactly when every owned record carries the
      allocated table and priority or is desired. */
  lemma DiffConverges(a: ActualState, d: DesiredState)
    ensures var x := Diff(a, d);
            (&& (forall r :: (r in a.routes && r !in x.routesToRemove) || r in x.routesToAdd <==> r in d.routes)
             && (forall r :: (r in a.rules && r !in x.rulesToRemove) || r in x.rulesToAdd <==> r in d.rules))
            <==> Owns(a, d)
  {
    var x := Diff(a, d);
    forall r ensures (r in a.routes && r !in x.routesToRemove) || r in x.routesToAdd
                     <==> r in d.routes || (r in a.routes && r.table != a.allocatedTable)
    {
      StaleRouteMember(a, d, r);
      MinusMember(d.routes, a.routes, r);
    }
    forall r ensures (r in a.rules && r !in x.rulesToRemove) || r in x.rulesToAdd
                     <==> || r in d.rules
                          || (r in a.rules && !(r.table == a.allocatedTable && r.priority == a.rulePriority))
    {
      StaleRuleMember(a, d, r);
      MinusMember(d.rules, a.rules, r);
    }
    if r :| r in a.routes && !(r.table == a.allocatedTable || r in d.routes) {
      assert (r in a.routes && r !in x.routesToRemove) || r in x.routesToAdd;
    }
    if r :| r in a.rules && !((r.table == a.allocatedTable && r.priority == a.rulePriority) || r in d.rules) {
      assert (r in a.rules && r !in x.rulesToRemove) || r in x.rulesToAdd;
    }
  }

  /** The diff is empty exactly when nothing is missing and nothing owned is obsolete. */
  lemma EmptyDiffIff(a: ActualState, d: DesiredState)
    ensures Diff(a, d).IsEmpty()
            <==> && (forall r <- d.routes :: r in a.routes) && (forall r <- d.rules :: r in a.rules)
                 && (forall r <- a.routes :: r.table == a.allocatedTable ==> r in d.routes)
                 && (forall r <- a.rules | r.table == a.allocatedTable && r.priority == a.rulePriority :: r in d.rules)
  {
    var x := Diff(a, d);
    if x.IsEmpty() {
      forall r | r in d.routes ensures r in a.routes { MinusMember(d.routes, a.routes, r); }
      forall r | r in d.rules ensures r in a.rules { MinusMember(d.rules, a.rules, r); }
      forall r | r in a.routes && r.table == a.allocatedTable ensures r in d.routes { StaleRouteMember(a, d, r); }
      forall r | r in a.rules && r.table == a.allocatedTable && r.priority == a.rulePriority
        ensures r in d.rules { StaleRuleMember(a, d, r); }
    } else if x.routesToAdd != [] {
      MinusMember(d.routes, a.routes, x.routesToAdd[0]);
    } else if x.rulesToAdd != [] {
      MinusMember(d.rules, a.rules, x.rulesToAdd[0]);
    } else if x.routesToRemove != [] {
      StaleRouteMember(a, d, x.routesToRemove[0]);
    } else {
      StaleRuleMember(a, d, x.rulesToRemove[0]);
    }
  }

  /** In any state the planner accepts, longest-prefix match over the desired routes never
      sends a blacklisted address out a LAN interface, in any table. */
  lemma ValidatedNeverLeaks(d: DesiredState, table: nat, ip: Addr)
    requires ValidDesired(d) && exists b <- d.blacklist :: Contains(b, ip)
    ensures var t := Install(map[], d.routes);
            var w := Lookup(t, table, ip);
            w.Some? ==> !(t[w.value].rtype == Unicast && t[w.value].dev in d.lanInterfaces)
  {
    var t := Install(map[], d.routes);
    var w := Lookup(t, table, ip);
    if w.Some? {
      var own := InstallOrigin(map[], d.routes, w.value);
      var r := own.value;
      TruncSameMembers(r.destination, ip);
      var b :| b in d.blacklist && Contains(b, ip);
      OverlapIffCommonAddress(b, r.destination);
      assert SafeRoute(d, r);
    }
  }
}
