/** Entries nobody owns.  A start without a record skips the reset, so whatever an earlier run
    left in the policy tables stays below everything the daemon does; as long as no claim of the
    configuration lies on its blocks, it stays there for good. */
module Orphans {
  import opened Net
  import opened Model
  import opened Seqs
  import opened Fib
  import opened Policy
  import opened Claims
  import opened Kernel
  import opened Planner
  import opened State
  import opened Convergence
  import opened Reconcile
  import opened Failover
  import opened Gateways
  import opened History
  import opened Probes

  /** `t` is the base with `over` beside it. */
  ghost predicate Beside(t: Table, base: Table, over: Table) {
    base.Keys !! over.Keys && t == base + over
  }

  /** No entry of the base lies on the block of the route. */
  ghost predicate Clear(base: Table, r: Route) {
    forall k <- base :: !(k.table == r.table && k.dest == Trunc(r.destination))
  }

  ghost predicate AllClear(base: Table, rs: seq<Route>) {
    forall r <- rs :: Clear(base, r)
  }

  /** No entry of the base lies on a block that the engine claims. */
  ghost predicate Apart(base: Table, e: PolicyEngine) {
    forall k <- base | k.table == e.tableId ::
      && (forall b <- e.blacklist :: k.dest != Trunc(b))
      && forall rule <- e.rules, x <- MatcherDests(e, rule.matcher) :: k.dest != Trunc(x)
  }

  lemma ApartIsClear(base: Table, e: PolicyEngine, hm: HealthMap)
    requires Apart(base, e)
    ensures AllClear(base, DesiredRoutes(e, hm))
  {
    hide DesiredRoutes, MatcherDests, Trunc;
    forall r | r in DesiredRoutes(e, hm) ensures Clear(base, r) {
      RouteIsClaim(e, hm, r);
      GeneratedTable(e, hm, r);
    }
  }

  lemma VariantApart(base: Table, e: PolicyEngine, f: PolicyEngine)
    requires Apart(base, e) && SameButGateways(e, f)
    ensures Apart(base, f)
  {
    hide MatcherDests, Trunc;
    forall rule <- e.rules { SameDests(e, f, rule.matcher); }
  }

  // ---------------------------------------------------------------- commands beside a base

  lemma ReplaceBeside(t: Table, base: Table, over: Table, r: Route)
    requires Beside(t, base, over) && Clear(base, r)
    ensures Beside(Replace(t, r), base, Replace(over, r))
  {
  }

  lemma DeleteBeside(t: Table, base: Table, over: Table, r: Route)
    requires Beside(t, base, over) && Clear(base, r)
    ensures Beside(Delete(t, r), base, Delete(over, r))
  {
    forall k ensures Victim(t, r, k) <==> Victim(over, r, k) {
      if Victim(t, r, k) { assert k in over; }
      if Victim(over, r, k) {
        forall j | j in t.Keys && DeleteMatches(r, j, t[j]) ensures k.prio <= j.prio { assert j in over.Keys; }
      }
    }
    if k :| Victim(t, r, k) {
      DeleteIsVictim(t, r, k);
      DeleteIsVictim(over, r, k);
    } else {
      assert Delete(t, r) == t && Delete(over, r) == over;
    }
  }

  lemma {:induction false} InstallBeside(t: Table, base: Table, over: Table, rs: seq<Route>)
    requires Beside(t, base, over) && AllClear(base, rs)
    ensures Beside(Install(t, rs), base, Install(over, rs))
  {
    hide Beside, Clear;
    if rs != [] {
      InstallBeside(t, base, over, rs[..|rs| - 1]);
      ReplaceBeside(Install(t, rs[..|rs| - 1]), base, Install(over, rs[..|rs| - 1]), rs[|rs| - 1]);
    }
  }

  lemma {:induction false} DeleteAllBeside(t: Table, base: Table, over: Table, rs: seq<Route>)
    requires Beside(t, base, over) && AllClear(base, rs)
    ensures Beside(DeleteAll(t, rs), base, DeleteAll(over, rs))
  {
    hide Beside, Clear;
    if rs != [] {
      DeleteAllBeside(t, base, over, rs[..|rs| - 1]);
      DeleteBeside(DeleteAll(t, rs[..|rs| - 1]), base, DeleteAll(over, rs[..|rs| - 1]), rs[|rs| - 1]);
    }
  }

  /** The verification sees the base only on blocks it does not ask about. */
  lemma ObservedBeside(t: Table, base: Table, over: Table, table: nat, rs: seq<Route>)
    requires Beside(t, base, over) && AllClear(base, rs) && forall r <- rs :: r.table == table
    ensures Observed(t, table, rs) <==> Observed(over, table, rs)
  {
    hide Trunc;
    forall r | r in rs
      ensures (Trunc(r.destination), r.routeType) in Listing(t, table)
              <==> (Trunc(r.destination), r.routeType) in Listing(over, table)
    {
      if (Trunc(r.destination), r.routeType) in Listing(t, table) {
        var k := ListedEntry(t, table, Trunc(r.destination), r.routeType);
        assert Clear(base, r) && k in over;
        assert t[k] == over[k];
      }
      if (Trunc(r.destination), r.routeType) in Listing(over, table) {
        var k := ListedEntry(over, table, Trunc(r.destination), r.routeType);
        assert t[k] == over[k];
      }
    }
  }

  // ---------------------------------------------------------------- turns beside a base

  /** The whole diff, and the whole rollback, leave the base alone. */
  lemma DiffBeside(t: Table, base: Table, over: Table, st: RuntimeState, d: DesiredState)
    requires Beside(t, base, over) && AllClear(base, st.routesOwned) && AllClear(base, d.routes)
    ensures Beside(AfterDiff(t, st, d), base, AfterDiff(over, st, d))
    ensures Beside(AfterUndo(t, st, d), base, AfterUndo(over, st, d))
  {
    hide Beside, Clear, Install, DeleteAll, Diff;
    var x := Diff(ActualOf(st), d);
    DiffMembers(st, d);
    InstallBeside(t, base, over, x.routesToAdd);
    DeleteAllBeside(Install(t, x.routesToAdd), base, Install(over, x.routesToAdd), x.routesToRemove);
    DeleteAllBeside(AfterDiff(t, st, d), base, AfterDiff(over, st, d), x.routesToAdd);
    InstallBeside(DeleteAll(AfterDiff(t, st, d), x.routesToAdd), base,
                  DeleteAll(AfterDiff(over, st, d), x.routesToAdd), st.routesOwned);
  }

  /** A turn over a base is the turn without it, with the base beside the result. */
  lemma TurnBeside(base: Table, over: Table, h0: Snapshot, st0: RuntimeState, h1: Snapshot, st1: RuntimeState,
                   d: DesiredState) returns (next: Table)
    requires Turn(h0, st0, h1, st1, d) && NoDefaults(st0.routesOwned)
    requires Beside(AfterDiff(h0.routes, st0, d), base, AfterDiff(over, st0, d))
    requires Beside(AfterUndo(h0.routes, st0, d), base, AfterUndo(over, st0, d))
    requires NothingToDo(st0, d) ==> Beside(h0.routes, base, over)
    requires AllClear(base, d.routes) && forall r <- d.routes :: r.table == st0.allocatedTable
    ensures Beside(h1.routes, base, next)
    ensures Turn(h0.(routes := over), st0, h1.(routes := next), st1, d)
  {
    hide Beside, Clear, AfterDiff, AfterUndo, NothingToDo, Observed, RulesAfter, Commit, ActiveInterfaces;
    ObservedBeside(AfterDiff(h0.routes, st0, d), base, AfterDiff(over, st0, d), st0.allocatedTable, d.routes);
    next := if NothingToDo(st0, d) then over
            else if Observed(AfterDiff(over, st0, d), st0.allocatedTable, d.routes) then AfterDiff(over, st0, d)
            else AfterUndo(over, st0, d);
  }

  /** In step, with the base beside what the health map compiles to. */
  ghost predicate InStepBeside(base: Table, e: PolicyEngine, rule: RpdbRule, h: Snapshot, st: RuntimeState,
                               hm: HealthMap)
  {
    Beside(h.routes, base, Compiled(e, hm)) && InStep(e, rule, h.(routes := Compiled(e, hm)), st, hm)
  }

  /** A turn over an untouched base takes over the new map, or keeps the old one. */
  lemma TurnInStepBeside(base: Table, e: PolicyEngine, f: PolicyEngine, rule: RpdbRule, h0: Snapshot,
                         st0: RuntimeState, h1: Snapshot, st1: RuntimeState, d: DesiredState, at: HealthMap,
                         hm: HealthMap)
    requires Tractable(e) && OnlyIpv4(e) && SameButGateways(e, f) && Apart(base, e)
    requires InStepBeside(base, e, rule, h0, st0, at) && Turn(h0, st0, h1, st1, d)
    requires d.routes == DesiredRoutes(f, hm) && d.rules == [rule] && rule.table == e.tableId
    ensures InStepBeside(base, e, rule, h1, st1, if SamePins(e, f) then hm else at)
  {
    hide Beside, Clear, Tractable, OnlyIpv4, Turn, DesiredRoutes, Compiled, SamePins, Apart, AfterDiff, AfterUndo,
         NothingToDo, NoDefaults;
    var over := Compiled(e, at);
    VariantApart(base, e, f);
    ApartIsClear(base, f, hm);
    OwnedIsClear(base, e, rule, h0.(routes := over), st0);
    DiffBeside(h0.routes, base, over, st0, d);
    forall r | r in d.routes ensures r.table == st0.allocatedTable { GeneratedTable(f, hm, r); }
    var next := TurnBeside(base, over, h0, st0, h1, st1, d);
    TurnInStep(e, f, rule, h0.(routes := over), st0, h1.(routes := next), st1, d, at, hm);
    InStepTable(e, rule, h1.(routes := next), st1, if SamePins(e, f) then hm else at);
  }

  lemma InStepTable(e: PolicyEngine, rule: RpdbRule, h: Snapshot, st: RuntimeState, hm: HealthMap)
    requires InStep(e, rule, h, st, hm)
    ensures h.routes == Compiled(e, hm)
  {
  }

  lemma OwnedIsClear(base: Table, e: PolicyEngine, rule: RpdbRule, h: Snapshot, st: RuntimeState)
    requires Steady(e, rule, h, st) && Apart(base, e)
    ensures AllClear(base, st.routesOwned) && NoDefaults(st.routesOwned)
  {
    hide Clear, Apart, DesiredRoutes, Consistent, Install, KeysDistinct;
    if st.routesOwned != [] {
      var hm: HealthMap :| st.routesOwned == DesiredRoutes(e, hm);
      ApartIsClear(base, e, hm);
    }
  }

  /** What neither routes nor rules nor usable interfaces change keeps the daemon in step. */
  lemma BesideStays(base: Table, e: PolicyEngine, rule: RpdbRule, h0: Snapshot, h: Snapshot, st: RuntimeState,
                    at: HealthMap, hm: HealthMap)
    requires InStepBeside(base, e, rule, h0, st, at) && h.routes == h0.routes && h.rules == h0.rules
    requires forall i :: Usable(at, i) == Usable(hm, i)
    ensures InStepBeside(base, e, rule, h, st, at) && InStepBeside(base, e, rule, h, st, hm)
  {
    hide InStep, DesiredRoutes, Usable, Beside;
    var over := Compiled(e, at);
    UsableDecidesRoutes(e, at, hm);
    InStepStays(e, rule, h0.(routes := over), h.(routes := over), st, at, hm);
  }

  // ---------------------------------------------------------------- the first turn

  /** What the first policy does not overwrite. */
  ghost function Orphaned(t: Table, e: PolicyEngine, hm: HealthMap): Table {
    map k <- t.Keys | k !in Compiled(e, hm) :: t[k]
  }

  /** Over any table the first policy puts its own beside the orphans. */
  lemma FirstInstall(t: Table, e: PolicyEngine, hm: HealthMap)
    requires Tractable(e)
    ensures Beside(Install(t, DesiredRoutes(e, hm)), Orphaned(t, e, hm), Compiled(e, hm))
  {
    hide DesiredRoutes, DistinctClaims, NamedInterfaces, NoDefaultClaims, KeysDistinct, KeyOf, HopOf;
    var rs := DesiredRoutes(e, hm);
    GeneratedKeysDistinct(e, hm);
    var t1, base, over := Install(t, rs), Orphaned(t, e, hm), Install(map[], rs);
    forall k ensures k in t1 <==> k in (base + over) {
      InstallKeys(t, rs, k);
      InstallKeys(map[], rs, k);
    }
    forall k | k in t1 ensures t1[k] == (base + over)[k] {
      var own := InstallOrigin(t, rs, k);
      if own.Some? {
        InstallKeepsAll(map[], rs, own.value);
      } else {
        InstallKeys(map[], rs, k);
      }
    }
  }

  /** From any table without a record the first turn gets in step, beside the orphans. */
  lemma FirstTurnBeside(e: PolicyEngine, rule: RpdbRule, h0: Snapshot, st0: RuntimeState, h1: Snapshot,
                        st1: RuntimeState, d: DesiredState, hm: HealthMap)
    requires Tractable(e) && OnlyIpv4(e) && rule.table == e.tableId
    requires st0 == DEFAULT_STATE && e.tableId == DEFAULT_STATE.allocatedTable
    requires Turn(h0, st0, h1, st1, d) && d.routes == DesiredRoutes(e, hm) && d.rules == [rule]
    ensures InStepBeside(Orphaned(h0.routes, e, hm), e, rule, h1, st1, hm)
  {
    hide Beside, Tractable, OnlyIpv4, DesiredRoutes, AfterUndo, Orphaned, NothingToDo, Observed, Install, RulesAfter,
         Commit, InStep, AfterDiff, NoDefaults;
    FirstInstall(h0.routes, e, hm);
    FirstDiff(h0.routes, d);
    FirstDiff(map[], d);
    FirstIsBusy(d, rule);
    Ipv4IsObserved(e, hm, d, e.tableId);
    ObservedOver(Install(h0.routes, d.routes), Orphaned(h0.routes, e, hm), Compiled(e, hm), e.tableId, d.routes);
    FirstTurnInStep(e, rule, h0.(routes := map[]), st0, h1.(routes := Compiled(e, hm)), st1, d, hm);
  }

  /** More entries never make the verification fail. */
  lemma ObservedOver(t: Table, base: Table, over: Table, table: nat, rs: seq<Route>)
    requires Beside(t, base, over) && Observed(over, table, rs)
    ensures Observed(t, table, rs)
  {
    hide Trunc;
    forall r | r in rs ensures (Trunc(r.destination), r.routeType) in Listing(t, table) {
      var k := ListedEntry(over, table, Trunc(r.destination), r.routeType);
      assert t[k] == over[k];
    }
  }

  lemma FirstIsBusy(d: DesiredState, rule: RpdbRule)
    requires d.rules == [rule]
    ensures !NothingToDo(DEFAULT_STATE, d)
  {
    EmptyDiffIff(ActualOf(DEFAULT_STATE), d);
    assert rule in d.rules;
  }

  lemma FirstDiff(t: Table, d: DesiredState)
    ensures AfterDiff(t, DEFAULT_STATE, d) == Install(t, d.routes)
  {
    AddsAreMinus(DEFAULT_STATE, d);
    MinusNothing(d.routes);
    NothingToRemove(d);
  }

  // ---------------------------------------------------------------- what an orphan does

  /** An orphan decides where an address goes exactly when it beats the policy's own answer. */
  lemma OrphanDecidesIff(base: Table, e: PolicyEngine, rule: RpdbRule, h: Snapshot, st: RuntimeState, hm: HealthMap,
                         ip: Addr)
    requires InStepBeside(base, e, rule, h, st, hm) && Canonical(base)
    ensures var w := Lookup(Compiled(e, hm), e.tableId, ip);
            Lookup(h.routes, e.tableId, ip) != w
            <==> exists k <- base :: k.table == e.tableId && Contains(k.dest, ip)
                   && (w.None? || !Better(w.value, k))
  {
    hide InStep, DesiredRoutes, Install, Contains, Better, Lookup;
    var over := Compiled(e, hm);
    InstallCanonical(map[], DesiredRoutes(e, hm));
    assert h.routes.Keys - over.Keys == base.Keys;
    ExtraWinsIff(over, h.routes, e.tableId, ip);
    var w := Lookup(over, e.tableId, ip);
    if k :| k in h.routes.Keys - over.Keys && k.table == e.tableId && Contains(k.dest, ip)
            && (w.None? || !Better(w.value, k))
    {
      assert k in base;
    }
    if k :| k in base && k.table == e.tableId && Contains(k.dest, ip) && (w.None? || !Better(w.value, k)) {
      assert k in h.routes.Keys - over.Keys;
    }
  }

  /** An interrupted first apply of the same configuration leaves no orphan. */
  lemma InterruptedApplyHeals(e: PolicyEngine, hm: HealthMap, i: nat)
    requires i <= |DesiredRoutes(e, hm)|
    ensures Orphaned(Install(map[], DesiredRoutes(e, hm)[..i]), e, hm) == map[]
  {
    hide DesiredRoutes, KeyOf, HopOf;
    var rs := DesiredRoutes(e, hm);
    forall k | k in Install(map[], rs[..i]) ensures k in Compiled(e, hm) {
      var own := InstallOrigin(map[], rs[..i], k);
      InstallKeys(map[], rs, k);
    }
  }

  /** Why claimed blocks are another matter.  The input: an orphan like a host's own route but for
      its metric.  When the interface fails, the run deletes the orphan in place of the route,
      which stays and is owned by nobody. */
  lemma ClaimedOrphanInput(host: Addr, rules: seq<RpdbRule>)
    requires host.fam == V4
    ensures var r := HostRoute(host, 52000);
            var o, u := r.(metric := Some(10)), Route(HostNet(host), "", None, 52000, Some(50), Unreachable);
            var d := DesiredState([u], rules, [], None, ["eth1"], []);
            AfterDiff(Install(map[], [r, o]), DEFAULT_STATE.(routesOwned := [r]), d) == Install(map[], [r, u])
  {
    hide Trunc, HostNet, Install, DeleteAll, Diff;
    var r := HostRoute(host, 52000);
    var o, u := r.(metric := Some(10)), Route(HostNet(host), "", None, 52000, Some(50), Unreachable);
    var d, st := DesiredState([u], rules, [], None, ["eth1"], []), DEFAULT_STATE.(routesOwned := [r]);
    var x := Diff(ActualOf(st), d);
    SwapDiff(r, u, d, st);
    InstallTwo(map[], r, o);
    InstallTwo(map[], r, u);
    SingleRoute(Install(map[], [r, o]), u);
    SingleRoute(Install(Install(map[], [r, o]), [u]), r);
    assert Victim(Install(Install(map[], [r, o]), [u]), r, KeyOf(o));
    DeleteIsVictim(Install(Install(map[], [r, o]), [u]), r, KeyOf(o));
  }

  lemma SwapDiff(r: Route, u: Route, d: DesiredState, st: RuntimeState)
    requires d.routes == [u] && st.routesOwned == [r] && r != u && r.table == st.allocatedTable
    ensures Diff(ActualOf(st), d).routesToAdd == [u] && Diff(ActualOf(st), d).routesToRemove == [r]
  {
    var x := Diff(ActualOf(st), d);
    AddsAreMinus(st, d);
    FlatMapOne(u, (y: Route) => if y in st.routesOwned then [] else [y]);
    FlatMapOne(r, (y: Route) => if y.table == st.allocatedTable && y !in d.routes then [y] else []);
  }

  lemma InstallTwo(t: Table, a: Route, b: Route)
    ensures Install(t, [a, b]) == Replace(Replace(t, a), b)
  {
    assert [a, b][..1] == [a] && [a][..0] == [] && Install(t, []) == t;
    assert Install(t, [a]) == Replace(t, a);
  }

  /** The input: a configuration that only blacklists one block, and one host route that an
      earlier run left in it.  Whatever the daemon does, the host goes out eth1. */
  lemma OrphanInput(host: Addr, b: Cidr, gateway: Option<Addr>, rule: RpdbRule, h: Snapshot, st: RuntimeState,
                    hm: HealthMap)
    requires host.fam == V4 && Contains(b, host) && 0 < b.prefix < 32
    requires var e := PolicyEngine(52000, [], Some("wlan0"), map[], [], [b], gateway, None);
             InStepBeside(Install(map[], [HostRoute(host, 52000)]), e, rule, h, st, hm)
    ensures var e := PolicyEngine(52000, [], Some("wlan0"), map[], [], [b], gateway, None);
            var t := Install(map[], [HostRoute(host, 52000)]);
            && Orphaned(t, e, NO_HEALTH) == t && Apart(t, e)
            && Lookup(Compiled(e, hm), 52000, host) == Some(KeyOf(BlacklistRoute(e, "wlan0", b)))
            && Lookup(h.routes, 52000, host) == Some(KeyOf(HostRoute(host, 52000)))
  {
    hide Contains, Trunc, InStep;
    var e := PolicyEngine(52000, [], Some("wlan0"), map[], [], [b], gateway, None);
    var o, pin := HostRoute(host, 52000), BlacklistRoute(e, "wlan0", b);
    var t := Install(map[], [o]);
    OnlyPin(e, b, hm);
    OnlyPin(e, b, NO_HEALTH);
    Entries(host, b, o, pin);
    LookupIs(Install(map[], [pin]), 52000, host, KeyOf(pin));
    assert Wins(h.routes, 52000, host, KeyOf(o));
    LookupIs(h.routes, 52000, host, KeyOf(o));
  }

  lemma OnlyPin(e: PolicyEngine, b: Cidr, hm: HealthMap)
    requires e.rules == [] && e.blacklist == [b] && e.defaultWan == Some("wlan0")
    ensures DesiredRoutes(e, hm) == [BlacklistRoute(e, "wlan0", b)]
  {
    var pin := BlacklistRoute(e, "wlan0", b);
    FlatMapOne(b, (b: Cidr) => [BlacklistRoute(e, e.defaultWan.value, b)]);
    assert e.blacklist == [b] && BlacklistRoutes(e, e.blacklist) == [pin];
    assert AllRuleRoutes(e, e.rules, hm) == [];
    assert [pin] + [] == [pin] && [pin][..0] == [] && Dedup([]) == [];
    assert Dedup([pin]) == [pin];
  }

  lemma FlatMapOne<A, B>(x: A, f: A -> seq<B>)
    ensures FlatMap([x], f) == f(x)
  {
    assert [x][..0] == [];
    assert FlatMap([], f) == [];
  }

  lemma Entries(host: Addr, b: Cidr, o: Route, pin: Route)
    requires host.fam == V4 && Contains(b, host) && 0 < b.prefix < 32
    requires o == HostRoute(host, 52000) && pin.table == 52000 && pin.destination == b
    ensures Install(map[], [o]) == map[KeyOf(o) := HopOf(o)] && Install(map[], [pin]) == map[KeyOf(pin) := HopOf(pin)]
    ensures Canonical(Install(map[], [o])) && Canonical(Install(map[], [pin]))
    ensures Contains(KeyOf(o).dest, host) && Contains(KeyOf(pin).dest, host)
    ensures KeyOf(o).dest.prefix == 32 && KeyOf(pin).dest.prefix == b.prefix && KeyOf(o).dest != Trunc(b)
  {
    hide Contains;
    HostNetHoldsOne(host, host);
    TruncSameMembers(HostNet(host), host);
    TruncSameMembers(b, host);
    InstallCanonical(map[], [o]);
    InstallCanonical(map[], [pin]);
  }

  lemma NothingToRemove(d: DesiredState)
    ensures Diff(ActualOf(DEFAULT_STATE), d).routesToRemove == []
  {
  }

  lemma {:induction false} MinusNothing(rs: seq<Route>)
    ensures Minus(rs, []) == rs
  {
    if rs != [] { MinusNothing(rs[..|rs| - 1]); }
  }
}
