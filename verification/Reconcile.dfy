/** The reconciler: plan, guard, apply, verify, commit or roll back.  The ghost log splits the
    states of a run by stage; the contracts speak about every one of them. */
module Reconcile {
  import opened Net
  import opened Model
  import opened Text
  import opened Seqs
  import opened Fib
  import opened Kernel
  import opened Netlink
  import opened Planner
  import opened Firewall
  import opened Transaction
  import opened Convergence
  import opened State
  import opened Stages

  datatype Report = Report(diff: StateDiff, dryRun: bool, applied: bool, verified: bool, rolledBack: bool)

  datatype Error = LoadFailed | PlanRejected(why: PlanError) | NoWanRoute | CommandFailed | SaveFailed

  type Outcome = Result<Report, Error>

  /** States of one run, stage by stage. */
  datatype Log = Log(
    guard: seq<Snapshot>,
    rules: seq<Snapshot>,
    adds: seq<Snapshot>,
    removes: seq<Snapshot>,
    cleanup: seq<Snapshot>,
    wan: seq<Snapshot>,
    undo: seq<Snapshot>)
  {
    /** From the first routing change to the point where the run commits or gives up. */
    function Forward(): seq<Snapshot> {
      rules + adds + removes + cleanup + wan
    }

    function Routing(): seq<Snapshot> {
      Forward() + undo
    }

    function All(): seq<Snapshot> {
      guard + Routing()
    }
  }

  const EMPTY_LOG := Log([], [], [], [], [], [], [])

  predicate Committed(r: Outcome) {
    r.Ok? && r.value.applied && r.value.verified
  }

  predicate RolledBack(r: Outcome) {
    r.Ok? && r.value.rolledBack
  }

  /** The policy tables hold exactly the owned routes. */
  ghost predicate Synced(t: Table, owned: seq<Route>) {
    t == Install(map[], owned) && KeysDistinct(owned) && NoDefaults(owned)
  }

  ghost predicate NoDefaults(rs: seq<Route>) {
    forall r <- rs :: r.destination.prefix != 0
  }

  /** The deletions of this run never reach past the key of their route: its rollback is exact. */
  ghost predicate Reversible(owned: seq<Route>, desired: seq<Route>) {
    Keyed(owned + desired)
  }

  /** The deletions of this run can tell all its routes apart: it makes before it breaks.  A
      change of gateway alone is reversible but not separable. */
  ghost predicate Separable(owned: seq<Route>, desired: seq<Route>) {
    KeysDistinct(desired) && Identified(owned + desired)
  }

  /** Whatever both policies claim is claimed by the table. */
  ghost predicate KeepsBoth(t: Table, owned: seq<Route>, desired: seq<Route>) {
    forall table, ip :: CoveredBy(owned, table, ip) && CoveredBy(desired, table, ip) ==> Covers(t, table, ip)
  }

  lemma AddStateKeepsBoth(owned: seq<Route>, desired: seq<Route>, toAdd: seq<Route>, i: nat)
    requires i <= |toAdd|
    ensures KeepsBoth(Install(Install(map[], owned), toAdd[..i]), owned, desired)
  {
    forall table, ip | CoveredBy(owned, table, ip)
      ensures Covers(Install(Install(map[], owned), toAdd[..i]), table, ip)
    {
      AddsKeepCoverage(owned, toAdd, i, table, ip);
    }
  }

  lemma StartKeepsBoth(owned: seq<Route>, desired: seq<Route>)
    ensures KeepsBoth(Install(map[], owned), owned, desired)
  {
    forall table, ip | CoveredBy(owned, table, ip) ensures Covers(Install(map[], owned), table, ip) {
      FreshCoversIff(owned, table, ip);
    }
  }

  lemma RemoveStateKeepsBoth(owned: seq<Route>, desired: seq<Route>, toRemove: seq<Route>, t: Table)
    requires KeysDistinct(owned) && Separable(owned, desired)
    requires forall r <- toRemove :: r in owned && r !in desired
    requires Shrunk(Install(Install(map[], owned), Minus(desired, owned)), t, toRemove)
    ensures KeepsBoth(t, owned, desired)
  {
    RemovesKeepDesired(owned, desired, toRemove, t);
    forall table, ip | CoveredBy(desired, table, ip) ensures Covers(t, table, ip) {
      InstalledCovers(t, desired, table, ip);
    }
  }

  lemma StaleIsMinus(st: RuntimeState, d: DesiredState)
    requires Consistent(st)
    ensures StaleRoutes(ActualOf(st), d) == Minus(st.routesOwned, d.routes)
  {
    FlatMapSame(st.routesOwned,
      (r: Route) => if r.table == st.allocatedTable && r !in d.routes then [r] else [],
      (r: Route) => if r in d.routes then [] else [r]);
  }

  lemma DiffMembers(st: RuntimeState, d: DesiredState)
    ensures var x := Diff(ActualOf(st), d);
            && (forall r <- x.routesToAdd :: r in d.routes && r !in st.routesOwned)
            && (forall r <- x.routesToRemove :: r in st.routesOwned && r !in d.routes)
  {
    var x := Diff(ActualOf(st), d);
    forall r | r in x.routesToAdd ensures r in d.routes && r !in st.routesOwned {
      MinusMember(d.routes, st.routesOwned, r);
    }
    forall r | r in x.routesToRemove ensures r in st.routesOwned && r !in d.routes {
      StaleRouteMember(ActualOf(st), d, r);
    }
  }

  // ---------------------------------------------------------------- forward route stages

  /** Adds, removes and rule cleanup: steps 2 to 4 of the apply. */
  method ChangeRoutes(h: Host, st: RuntimeState, d: DesiredState, diff: StateDiff)
    returns (done: bool, ghost log: Log)
    requires diff == Diff(ActualOf(st), d)
    modifies h`routes, h`rules, h`trace, h`failed, h`results
    ensures log == EMPTY_LOG.(adds := log.adds, removes := log.removes, cleanup := log.cleanup)
    ensures h.trace == old(h.trace) + log.Forward()
    ensures forall s <- log.Forward() :: s.main == old(h.main) && s.fw == old(h.fw)
    ensures Synced(old(h.routes), st.routesOwned) && Separable(st.routesOwned, d.routes) ==>
              forall s <- log.Forward() :: KeepsBoth(s.routes, st.routesOwned, d.routes)
    ensures !done ==> exists i :: 0 <= i <= |diff.routesToAdd|
                        && h.routes == Install(old(h.routes), diff.routesToAdd[..i])
    ensures done ==> Shrunk(Install(old(h.routes), diff.routesToAdd), h.routes, diff.routesToRemove)
    ensures done ==> Leaves(old(h.routes), h.routes, st, d, h.failed - old(h.failed))
    ensures done && h.failed == old(h.failed) ==>
              && h.routes == DeleteAll(Install(old(h.routes), diff.routesToAdd), diff.routesToRemove)
              && h.rules == old(h.rules) - RuleSet(diff.rulesToRemove)
    ensures forall s <- log.Forward() + [h.Now()] ::
              old(h.rules) - RuleSet(diff.rulesToRemove) <= s.rules <= old(h.rules)
    ensures Synced(old(h.routes), st.routesOwned) && Separable(st.routesOwned, d.routes) && done ==>
              KeepsBoth(h.routes, st.routesOwned, d.routes)
    ensures h.failed >= old(h.failed)
    ensures !done ==> h.failed > old(h.failed) || !ValidDesired(d)
  {
    hide Install, DeleteAll, Shrunk, KeepsBoth, Synced, Separable, Diff, ValidDesired, RuleSet, Issued, Leaves;
    ghost var t0, s0, f0 := h.routes, h.Now(), h.failed;
    DiffMembers(st, d);
    log := EMPTY_LOG;
    var n;
    ghost var adds;
    n, adds := AddRoutes(h, diff.routesToAdd);
    log := log.(adds := adds);
    ForwardOfAdds(log);
    forall s | s in adds ensures AddClaim(t0, s.routes, st, d) && s.main == s0.main && s.fw == s0.fw {
      var i :| 0 <= i < n && adds[i] == s;
      AddClaimHolds(t0, st, d, diff.routesToAdd, i + 1);
    }
    if n < |diff.routesToAdd| {
      RefusedIsInvalid(st, d, n);
      return false, log;
    }
    FullSlice(diff.routesToAdd);
    ghost var s1, r1 := h.Now(), h.results;
    ghost var removes := RemoveRoutes(h, diff.routesToRemove);
    ghost var s2, f2 := h.Now(), h.failed;
    RemovesLeave(t0, s2.routes, st, d, r1, h.results, h.failed == f0, f2 - f0);
    forall s | s in removes + [s2] ensures AddClaim(t0, s.routes, st, d) && s.main == s0.main && s.fw == s0.fw {
      RemoveClaimHolds(t0, st, d, s.routes);
    }
    assert s2 in removes + [s2];
    ghost var cleanup := RemoveRules(h, diff.rulesToRemove);
    ghost var s3 := h.Now();
    forall s | s in cleanup + [s3] ensures AddClaim(t0, s.routes, st, d) && s.main == s0.main && s.fw == s0.fw {
      assert RulesOnly(s2, s);
    }
    assert s3 in cleanup + [s3];
    log := log.(removes := removes, cleanup := cleanup);
    assert log.Forward() == adds + removes + cleanup;
    LeavesMore(t0, h.routes, st, d, f2 - f0, h.failed - f0);
    done := true;
  }

  /** The table after all additions and those removals that succeeded; at most n did not. */
  ghost predicate Leaves(t0: Table, t: Table, st: RuntimeState, d: DesiredState, n: int) {
    var x := Diff(ActualOf(st), d);
    exists oks: seq<bool> | |oks| == |x.routesToRemove| ::
      Misses(oks) <= n && t == DeleteAll(Install(t0, x.routesToAdd), Succeeded(x.routesToRemove, oks))
  }

  lemma LeavesMore(t0: Table, t: Table, st: RuntimeState, d: DesiredState, n: int, m: int)
    requires Leaves(t0, t, st, d, n) && n <= m
    ensures Leaves(t0, t, st, d, m)
  {
    hide Diff, Install, DeleteAll, Succeeded;
  }

  lemma RemovesLeave(t0: Table, t: Table, st: RuntimeState, d: DesiredState, r0: seq<bool>, r1: seq<bool>, ok: bool,
                     n: int)
    requires var x := Diff(ActualOf(st), d);
             && Issued(r0, r1, |x.routesToRemove|, ok) && Misses(r1[|r0|..]) == n
             && t == DeleteAll(Install(t0, x.routesToAdd), Succeeded(x.routesToRemove, r1[|r0|..]))
    ensures Leaves(t0, t, st, d, n)
  {
    hide Diff, Install, DeleteAll, Succeeded;
  }

  /** The coverage claim about one state. */
  ghost predicate AddClaim(t0: Table, t: Table, st: RuntimeState, d: DesiredState) {
    Synced(t0, st.routesOwned) && Separable(st.routesOwned, d.routes) ==> KeepsBoth(t, st.routesOwned, d.routes)
  }

  lemma ForwardOfAdds(log: Log)
    requires log == EMPTY_LOG.(adds := log.adds)
    ensures log.Forward() == log.adds
  {
  }

  lemma AddClaimHolds(t0: Table, st: RuntimeState, d: DesiredState, toAdd: seq<Route>, i: nat)
    requires i <= |toAdd|
    ensures AddClaim(t0, Install(t0, toAdd[..i]), st, d)
  {
    if Synced(t0, st.routesOwned) { AddStateKeepsBoth(st.routesOwned, d.routes, toAdd, i); }
  }

  lemma RemoveClaimHolds(t0: Table, st: RuntimeState, d: DesiredState, t: Table)
    requires Shrunk(Install(t0, Diff(ActualOf(st), d).routesToAdd), t, Diff(ActualOf(st), d).routesToRemove)
    ensures AddClaim(t0, t, st, d)
  {
    if Synced(t0, st.routesOwned) && Separable(st.routesOwned, d.routes) {
      DiffMembers(st, d);
      RemoveStateKeepsBoth(st.routesOwned, d.routes, Diff(ActualOf(st), d).routesToRemove, t);
    }
  }

  lemma RefusedIsInvalid(st: RuntimeState, d: DesiredState, n: nat)
    requires n < |Diff(ActualOf(st), d).routesToAdd|
    ensures Diff(ActualOf(st), d).routesToAdd[n].destination.prefix == 0 ==> !ValidDesired(d)
  {
    var r := Diff(ActualOf(st), d).routesToAdd[n];
    DiffMembers(st, d);
    assert r in d.routes;
    if ValidDesired(d) { assert SafeRoute(d, r); }
  }

  // ---------------------------------------------------------------- apply, verify, commit

  /** Every state still obeys the policy installed before routing moved, and keeps the
      configured WAN's default route. */
  ghost predicate Calm(s0: Snapshot, s: Snapshot, wan: Option<string>) {
    && s.fw == s0.fw
    && (wan.Some? && HasDefault(s0.main, wan.value) ==> HasDefault(s.main, wan.value))
  }

  /** No rule beyond those to be added appears, none but those to be removed disappears. */
  ghost predicate RulesWithin(s0: Snapshot, s: Snapshot, st: RuntimeState, d: DesiredState) {
    var x := Diff(ActualOf(st), d);
    s0.rules - RuleSet(x.rulesToRemove) <= s.rules <= s0.rules + RuleSet(x.rulesToAdd)
  }

  ghost predicate Held(s0: Snapshot, s: Snapshot, st: RuntimeState, d: DesiredState) {
    Calm(s0, s, d.wanInterface) && RulesWithin(s0, s, st, d)
  }

  ghost predicate AllHeld(s0: Snapshot, states: seq<Snapshot>, st: RuntimeState, d: DesiredState) {
    forall s <- states :: Held(s0, s, st, d)
  }

  /** The table from which the run rolls back is an old table with some of the run's changes. */
  ghost predicate Undoable(t0: Table, t: Table, diff: StateDiff) {
    exists i :: 0 <= i <= |diff.routesToAdd| && Shrunk(Install(t0, diff.routesToAdd[..i]), t, diff.routesToRemove)
  }

  /** What a rollback whose commands all succeed achieves. */
  lemma UndoRestores(t0: Table, t: Table, st: RuntimeState, d: DesiredState, diff: StateDiff)
    requires diff == Diff(ActualOf(st), d) && Undoable(t0, t, diff)
    requires Synced(t0, st.routesOwned) && Reversible(st.routesOwned, d.routes)
    ensures Install(DeleteAll(t, diff.routesToAdd), st.routesOwned) == t0
  {
    DiffMembers(st, d);
    var i :| 0 <= i <= |diff.routesToAdd| && Shrunk(Install(t0, diff.routesToAdd[..i]), t, diff.routesToRemove);
    RollbackRestores(st.routesOwned, d.routes, diff.routesToAdd, i, diff.routesToRemove, t);
  }

  /** The rollback is the last thing a run does: one deletion for each route of the diff's
      additions and one command for each old route.  All of these succeeded. */
  ghost predicate UndoSucceeded(results: seq<bool>, st: RuntimeState, d: DesiredState) {
    LastSucceeded(results, |Diff(ActualOf(st), d).routesToAdd| + AddCommands(st.routesOwned))
  }

  /** Rolls back and reports what that achieved. */
  method GiveUp(h: Host, st: RuntimeState, d: DesiredState, diff: StateDiff, ghost t0: Table)
    returns (ghost undo: seq<Snapshot>)
    requires diff == Diff(ActualOf(st), d) && Undoable(t0, h.routes, diff)
    modifies h`routes, h`trace, h`failed, h`results
    ensures h.trace == old(h.trace) + undo
    ensures forall s <- undo :: RoutesOnly(old(h.Now()), s)
    ensures UndoSucceeded(h.results, st, d) <==> h.failed == old(h.failed)
    ensures h.failed == old(h.failed) ==> Passes(old(h.routes), undo, diff.routesToAdd)
    ensures h.failed == old(h.failed) && NoDefaults(st.routesOwned) ==>
              h.routes == Install(DeleteAll(old(h.routes), diff.routesToAdd), st.routesOwned)
    ensures h.failed == old(h.failed) && Synced(t0, st.routesOwned) && Reversible(st.routesOwned, d.routes) ==>
              h.routes == t0
    ensures h.failed >= old(h.failed)
  {
    hide Undoable, Reversible, Diff, Install, DeleteAll;
    ghost var t := h.routes;
    undo := Rollback(h, diff.routesToAdd, st.routesOwned);
    if Synced(t0, st.routesOwned) && Reversible(st.routesOwned, d.routes) {
      UndoRestores(t0, t, st, d, diff);
    }
  }

  /** The WAN of a run: the configured one, or else the device of some default route. */
  ghost predicate WanUsed(m: MainTable, d: DesiredState, wan: Option<string>) {
    if d.wanInterface.Some? then wan == d.wanInterface
    else if wan.Some? then HasDefault(m, wan.value)
    else forall dev :: !HasDefault(m, dev)
  }

  /** What a run does to the main table; no rollback touches it. */
  ghost predicate MainDone(m0: MainTable, m: MainTable, d: DesiredState) {
    exists wan :: WanUsed(m0, d, wan) && MainSettled(m0, m, wan, d.routes)
  }

  /** Steps 5 and 6: the main table, then the listing.  None means the run must roll back;
      an error means the listing could not be read at all. */
  method Conclude(h: Host, d: DesiredState, table: nat)
    returns (verdict: Option<Option<bool>>, ghost wanSteps: seq<Snapshot>)
    modifies h`main, h`trace, h`failed, h`results
    ensures h.trace == old(h.trace) + wanSteps
    ensures forall s <- wanSteps + [h.Now()] :: MainOnly(old(h.Now()), s) && Calm(old(h.Now()), s, d.wanInterface)
    ensures verdict == Some(Some(true)) ==> Observed(h.routes, table, d.routes)
    ensures verdict == Some(Some(true)) && h.failed == old(h.failed) && d.wanInterface.Some? ==>
              forall r <- d.routes :: r.outputInterface != "" && r.outputInterface != d.wanInterface.value
                                      ==> !HasDefault(h.main, r.outputInterface)
    ensures h.failed == old(h.failed) ==> verdict == Some(Some(Observed(h.routes, table, d.routes)))
    ensures h.failed == old(h.failed) ==> MainDone(old(h.main), h.main, d)
    ensures h.failed >= old(h.failed) && (verdict.None? ==> h.failed > old(h.failed))
  {
    hide Observed, HasDefault, MainSettled;
    var wan := d.wanInterface;
    if wan.None? {
      var o;
      o, wan := h.DefaultFirst();
    }
    ghost var s0, f0 := h.Now(), h.failed;
    assert f0 == old(h.failed) ==> WanUsed(h.main, d, wan);
    var ok;
    ok, wanSteps := SettleMain(h, d, wan);
    ghost var s1 := h.Now();
    forall s | s in wanSteps + [s1] ensures MainOnly(s0, s) && Calm(s0, s, d.wanInterface) {
      assert WanStep(s0, s, wan);
    }
    if !ok { return None, wanSteps; }
    var v := Verify(h, table, d.routes);
    verdict := Some(v);
  }

  /** Old and new routes are tidy, in their tables, and no removal clobbers an addition. */
  ghost predicate Converging(t0: Table, st: RuntimeState, d: DesiredState) {
    && Synced(t0, st.routesOwned) && Consistent(st)
    && Tidy(st.routesOwned) && Tidy(d.routes) && !Clobbers(st.routesOwned, d.routes)
  }

  /** The table when every addition and every removal of the diff succeeded. */
  ghost function AfterDiff(t0: Table, st: RuntimeState, d: DesiredState): Table {
    var x := Diff(ActualOf(st), d);
    DeleteAll(Install(t0, x.routesToAdd), x.routesToRemove)
  }

  /** The RPDB rules when every rule command of the diff succeeded.  The rollback has no say. */
  function RulesAfter(rules: set<RpdbRule>, st: RuntimeState, d: DesiredState): set<RpdbRule> {
    var x := Diff(ActualOf(st), d);
    rules + RuleSet(x.rulesToAdd) - RuleSet(x.rulesToRemove)
  }

  lemma RulesAfterMember(rules: set<RpdbRule>, st: RuntimeState, d: DesiredState, q: RpdbRule)
    ensures q in RulesAfter(rules, st, d)
            <==> if q in d.rules then q !in st.rulesOwned || q in rules
                 else q in rules && !(q in st.rulesOwned && q == RpdbRule(st.rulePriority, st.allocatedTable))
  {
    var x := Diff(ActualOf(st), d);
    MinusMember(d.rules, st.rulesOwned, q);
    StaleRuleMember(ActualOf(st), d, q);
    assert q in RuleSet(x.rulesToAdd) <==> q in x.rulesToAdd;
    assert q in RuleSet(x.rulesToRemove) <==> q in x.rulesToRemove;
  }

  /** The planner trusts the record: after the rule commands every desired rule is in the kernel
      if and only if those the record already owned were there. */
  lemma DesiredRulesIff(rules: set<RpdbRule>, st: RuntimeState, d: DesiredState)
    ensures (forall q <- d.rules :: q in RulesAfter(rules, st, d))
            <==> forall q <- d.rules :: q in st.rulesOwned ==> q in rules
  {
    forall q | q in d.rules ensures q in RulesAfter(rules, st, d) <==> (q in st.rulesOwned ==> q in rules) {
      RulesAfterMember(rules, st, d, q);
    }
  }

  /** Rollback undoes no rule command: the rules are as before exactly when there was nothing
      to add that was missing and nothing to remove that was there. */
  lemma RollbackKeepsRulesIff(rules: set<RpdbRule>, st: RuntimeState, d: DesiredState)
    ensures var x := Diff(ActualOf(st), d);
            RulesAfter(rules, st, d) == rules
            <==> (forall q <- x.rulesToAdd :: q in rules) && (forall q <- x.rulesToRemove :: q !in rules)
  {
    var x := Diff(ActualOf(st), d);
    var after := RulesAfter(rules, st, d);
    forall q | q in x.rulesToAdd ensures q !in x.rulesToRemove && q in after {
      MinusMember(d.rules, st.rulesOwned, q);
      StaleRuleMember(ActualOf(st), d, q);
    }
    forall q | q in x.rulesToRemove ensures q !in after { assert q in RuleSet(x.rulesToRemove); }
    if (forall q <- x.rulesToAdd :: q in rules) && (forall q <- x.rulesToRemove :: q !in rules) {
      assert RuleSet(x.rulesToAdd) <= rules;
      assert after == rules;
    }
  }

  /** The table when the whole diff and then the whole rollback succeeded, from any start. */
  ghost function AfterUndo(t0: Table, st: RuntimeState, d: DesiredState): Table {
    Install(DeleteAll(AfterDiff(t0, st, d), Diff(ActualOf(st), d).routesToAdd), st.routesOwned)
  }

  /** What a commit without a single failed command leaves in the kernel. */
  ghost predicate CleanCommit(h0: Snapshot, h1: Snapshot, st: RuntimeState, d: DesiredState) {
    && h1.routes == AfterDiff(h0.routes, st, d)
    && h1.rules == RulesAfter(h0.rules, st, d)
    && (d.wanInterface.Some? ==>
          forall r <- d.routes :: r.outputInterface != "" && r.outputInterface != d.wanInterface.value
                                  ==> !HasDefault(h1.main, r.outputInterface))
  }

  /** A clean commit over an owned table with consistent records reaches the table of the
      desired routes, unless a removal clobbers an addition. */
  lemma CleanCommitConverges(h0: Snapshot, h1: Snapshot, st: RuntimeState, d: DesiredState)
    requires CleanCommit(h0, h1, st, d) && Converging(h0.routes, st, d)
    ensures h1.routes == Install(map[], d.routes)
    ensures (forall r <- d.routes :: r.destination.prefix != 0) ==> Synced(h1.routes, Commit(st, d, []).routesOwned)
  {
    AfterDiffIsApplied(h0.routes, st, d);
    ApplyReachesDesired(st.routesOwned, d.routes);
    TidyKeys(d.routes);
  }

  lemma AfterDiffIsApplied(t0: Table, st: RuntimeState, d: DesiredState)
    requires Synced(t0, st.routesOwned) && Consistent(st)
    ensures AfterDiff(t0, st, d) == Applied(st.routesOwned, d.routes)
  {
    StaleIsMinus(st, d);
  }

  /** The rollback starts from some table the run can reach and passes through its midpoint. */
  ghost predicate UndoGap(t0: Table, st: RuntimeState, d: DesiredState, log: Log) {
    var x := Diff(ActualOf(st), d);
    exists t2: Table :: Undoable(t0, t2, x) && Passes(t2, log.undo, x.routesToAdd)
  }

  /** What a run guarantees once the firewall guard is up, however it ends. */
  ghost predicate RunClaims(s0: Snapshot, s1: Snapshot, st: RuntimeState, d: DesiredState, r: Outcome, log: Log,
                            undone: bool)
  {
    && AllHeld(s0, log.All() + [s1], st, d)
    && (RolledBack(r) && undone ==> UndoGap(s0.routes, st, d, log))
    && (Synced(s0.routes, st.routesOwned) && Separable(st.routesOwned, d.routes) ==>
          forall s <- log.Forward() :: KeepsBoth(s.routes, st.routesOwned, d.routes))
    && (Synced(s0.routes, st.routesOwned) && Reversible(st.routesOwned, d.routes) ==>
          (RolledBack(r) && undone ==> s1.routes == s0.routes))
    && (Committed(r) ==> Observed(s1.routes, st.allocatedTable, d.routes))
  }

  /** Without a failed command only the verification can make a run roll back, and it does so
      exactly when the changed table does not show the desired routes.  Either way the rule
      commands of the run stand. */
  ghost predicate CleanEnd(h0: Snapshot, h1: Snapshot, st: RuntimeState, d: DesiredState, r: Outcome, log: Log) {
    && (Committed(r) || RolledBack(r) || r == Err(SaveFailed))
    && (RolledBack(r) <==> !Observed(AfterDiff(h0.routes, st, d), st.allocatedTable, d.routes))
    && (RolledBack(r) ==> Passes(AfterDiff(h0.routes, st, d), log.undo, Diff(ActualOf(st), d).routesToAdd))
    && (RolledBack(r) && NoDefaults(st.routesOwned) ==> h1.routes == AfterUndo(h0.routes, st, d))
    && h1.rules == RulesAfter(h0.rules, st, d)
    && MainDone(h0.main, h1.main, d)
  }

  /** How a run past the guard may end. */
  ghost predicate EndsWell(r: Outcome, diff: StateDiff, file0: StateFile, file1: StateFile, st: RuntimeState,
                           d: DesiredState, ifaces: seq<string>)
  {
    && (r.Ok? ==> r.value.diff == diff && !r.value.dryRun && (Committed(r) <==> !RolledBack(r)))
    && (r.Err? ==> r.error == CommandFailed || r.error == SaveFailed)
    && (Committed(r) ==> file1 == Saved(Commit(st, d, ifaces)))
    && (!Committed(r) ==> file1 == file0 || (r == Err(SaveFailed) && file1 == Corrupt))
  }

  /** Every addition, every removal and the rule cleanup succeeded. */
  ghost predicate DiffApplied(s0: Snapshot, s: Snapshot, st: RuntimeState, d: DesiredState) {
    s.routes == AfterDiff(s0.routes, st, d) && s.rules == RulesAfter(s0.rules, st, d)
  }

  /** The route stages as part of the run that began in `s0`. */
  method ChangeStage(h: Host, st: RuntimeState, d: DesiredState, diff: StateDiff, ghost s0: Snapshot,
                     ghost rules: seq<Snapshot>)
    returns (done: bool, ghost log: Log)
    requires diff == Diff(ActualOf(st), d) && RulesOnly(s0, h.Now()) && AllFine(s0, rules, st, d)
    requires h.rules == s0.rules + RuleSet(diff.rulesToAdd)
    modifies h`routes, h`rules, h`trace, h`failed, h`results
    ensures log == EMPTY_LOG.(rules := rules, adds := log.adds, removes := log.removes, cleanup := log.cleanup)
    ensures h.trace == old(h.trace) + log.adds + log.removes + log.cleanup
    ensures AllFine(s0, log.Forward(), st, d) && Held(s0, h.Now(), st, d)
    ensures Undoable(s0.routes, h.routes, diff)
    ensures done ==> Fine(s0, h.Now(), st, d) && Leaves(s0.routes, h.routes, st, d, h.failed - old(h.failed))
    ensures done && h.failed == old(h.failed) ==> DiffApplied(s0, h.Now(), st, d)
    ensures h.failed >= old(h.failed) && (!done ==> h.failed > old(h.failed) || !ValidDesired(d))
  {
    hide Calm, Fine, Held, Diff, Install, DeleteAll, Shrunk, Synced, Separable, Reversible, KeepsBoth, Undoable,
         ValidDesired, RuleSet, Leaves;
    ghost var s1 := h.Now();
    done, log := ChangeRoutes(h, st, d, diff);
    ChangeFine(s0, s1, h.Now(), log, st, d, done);
    if done { FullyAdded(s0.routes, h.routes, diff); } else { PartlyAdded(s0.routes, h.routes, diff); }
    ghost var change := log.Forward();
    log := log.(rules := rules);
    assert log.Forward() == rules + change;
  }

  /** From the first routing command to the end of the run. */
  method ApplyDiff(h: Host, store: StateStore, st: RuntimeState, d: DesiredState, diff: StateDiff, ifaces: seq<string>)
    returns (r: Outcome, ghost log: Log)
    requires diff == Diff(ActualOf(st), d) && ValidDesired(d)
    modifies h`routes, h`rules, h`main, h`trace, h`failed, h`results, store
    ensures log.guard == [] && h.trace == old(h.trace) + log.All()
    ensures RunClaims(old(h.Now()), h.Now(), st, d, r, log, UndoSucceeded(h.results, st, d))
    ensures RolledBack(r) && h.failed <= old(h.failed) + (if r.value.applied then 0 else 1) ==>
              UndoSucceeded(h.results, st, d)
    ensures Committed(r) ==> Leaves(old(h.routes), h.routes, st, d, h.failed - old(h.failed))
    ensures r == Err(CommandFailed) ==> h.failed > old(h.failed)
    ensures r == Err(SaveFailed) ==> store.failed > old(store.failed)
    ensures store.failed >= old(store.failed)
    ensures EndsWell(r, diff, old(store.file), store.file, st, d, ifaces)
    ensures Committed(r) && h.failed == old(h.failed) ==> CleanCommit(old(h.Now()), h.Now(), st, d)
    ensures h.failed == old(h.failed) ==> CleanEnd(old(h.Now()), h.Now(), st, d, r, log)
    ensures h.failed >= old(h.failed)
  {
    hide Calm, Fine, Held, AddClaim, Diff, Install, DeleteAll, Shrunk, Synced, Separable, Reversible, KeepsBoth,
         Observed, Undoable,
         CleanCommit, CleanEnd, Commit, RunClaims, ValidDesired, HasDefault, DiffApplied, RuleSet, Passes,
         UndoSucceeded, Leaves, MainDone, NoDefaults, AfterDiff, AfterUndo, RulesAfter;
    ghost var s0 := h.Now();
    log := EMPTY_LOG;
    StillFine(s0, st, d);
    var ok;
    ghost var steps;
    ok, steps := AddRules(h, diff.rulesToAdd);
    log := log.(rules := steps);
    ghost var s1, f1 := h.Now(), h.failed;
    RulesFine(s0, steps + [s1], st, d, diff);
    assert s1 in steps + [s1];
    if !ok {
      r := Err(CommandFailed);
      NoUndoClaims(s0, s1, st, d, r, log, UndoSucceeded(h.results, st, d));
      return;
    }
    var done;
    done, log := ChangeStage(h, st, d, diff, s0, steps);
    ghost var s2, f2 := h.Now(), h.failed;
    if !done {
      ghost var undo;
      undo := GiveUp(h, st, d, diff, s0.routes);
      log := log.(undo := undo);
      r := Ok(Report(diff, false, false, false, true));
      UndoClaims(s0, s2, h.Now(), st, d, r, log, UndoSucceeded(h.results, st, d));
      return;
    }
    ghost var rest;
    r, rest := Finish(h, store, st, d, diff, ifaces, s0, log);
    log := log.(wan := rest.wan, undo := rest.undo);
    if Committed(r) {
      LeavesMore(s0.routes, h.routes, st, d, f2 - f1, h.failed - old(h.failed));
    }
    if h.failed == old(h.failed) {
      EndIsClean(s0, s2, h.Now(), st, d, r, log);
      if Committed(r) { CommitIsClean(s0, s2, h.Now(), st, d); }
    }
  }

  /** The main table, the verification, and the commit or the rollback. */
  method Finish(h: Host, store: StateStore, st: RuntimeState, d: DesiredState, diff: StateDiff, ifaces: seq<string>,
                ghost s0: Snapshot, ghost before: Log)
    returns (r: Outcome, ghost log: Log)
    requires diff == Diff(ActualOf(st), d) && Undoable(s0.routes, h.routes, diff)
    requires before.guard == [] && before.wan == [] && before.undo == []
    requires AllFine(s0, before.Forward(), st, d) && Fine(s0, h.Now(), st, d)
    modifies h`routes, h`main, h`trace, h`failed, h`results, store
    ensures log == before.(wan := log.wan, undo := log.undo)
    ensures h.trace == old(h.trace) + log.wan + log.undo
    ensures RunClaims(s0, h.Now(), st, d, r, log, UndoSucceeded(h.results, st, d))
    ensures RolledBack(r) && h.failed <= old(h.failed) + (if r.value.applied then 0 else 1) ==>
              UndoSucceeded(h.results, st, d)
    ensures r == Err(CommandFailed) ==> h.failed > old(h.failed)
    ensures r == Err(SaveFailed) ==> store.failed > old(store.failed)
    ensures store.failed >= old(store.failed)
    ensures EndsWell(r, diff, old(store.file), store.file, st, d, ifaces)
    ensures Committed(r) ==> h.routes == old(h.routes)
    ensures RolledBack(r) && UndoSucceeded(h.results, st, d) ==> Passes(old(h.routes), log.undo, diff.routesToAdd)
    ensures RolledBack(r) && UndoSucceeded(h.results, st, d) && NoDefaults(st.routesOwned) ==>
              h.routes == Install(DeleteAll(old(h.routes), diff.routesToAdd), st.routesOwned)
    ensures Committed(r) && h.failed == old(h.failed) && d.wanInterface.Some? ==>
              forall q <- d.routes :: q.outputInterface != "" && q.outputInterface != d.wanInterface.value
                                      ==> !HasDefault(h.main, q.outputInterface)
    ensures h.failed == old(h.failed) ==> Committed(r) || RolledBack(r) || r == Err(SaveFailed)
    ensures h.failed == old(h.failed) ==> (RolledBack(r) <==> !Observed(old(h.routes), st.allocatedTable, d.routes))
    ensures h.failed == old(h.failed) ==> MainDone(old(h.main), h.main, d)
    ensures h.failed >= old(h.failed)
  {
    hide Calm, Fine, Held, AddClaim, Diff, Install, DeleteAll, Shrunk, Synced, Separable, Reversible, KeepsBoth,
         Observed, Undoable, Commit, RunClaims, HasDefault, Passes, UndoSucceeded, MainDone;
    ghost var s2 := h.Now();
    FineParts(s0, s2, st, d);
    var verdict;
    ghost var steps;
    verdict, steps := Conclude(h, d, st.allocatedTable);
    log := before.(wan := steps);
    ghost var s3 := h.Now();
    WanFine(s0, s2, steps + [s3], st, d);
    assert s3 in steps + [s3];
    assert log.Forward() == before.Forward() + steps;
    if verdict == Some(None) {
      r := Err(CommandFailed);
      NoUndoClaims(s0, s3, st, d, r, log, UndoSucceeded(h.results, st, d));
    } else if verdict == Some(Some(true)) {
      var saved := store.Save(Commit(st, d, ifaces));
      r := if saved then Ok(Report(diff, false, true, true, false)) else Err(SaveFailed);
      NoUndoClaims(s0, s3, st, d, r, log, UndoSucceeded(h.results, st, d));
    } else {
      FineParts(s0, s3, st, d);
      ghost var undo;
      undo := GiveUp(h, st, d, diff, s0.routes);
      log := log.(undo := undo);
      r := Ok(Report(diff, false, verdict.Some?, false, true));
      UndoClaims(s0, s3, h.Now(), st, d, r, log, UndoSucceeded(h.results, st, d));
    }
  }

  lemma FineParts(s0: Snapshot, s: Snapshot, st: RuntimeState, d: DesiredState)
    ensures Fine(s0, s, st, d) <==> Held(s0, s, st, d) && AddClaim(s0.routes, s.routes, st, d)
  {
  }

  // ---------------------------------------------------------------- lemmas for the run

  ghost predicate Fine(s0: Snapshot, s: Snapshot, st: RuntimeState, d: DesiredState) {
    Held(s0, s, st, d) && AddClaim(s0.routes, s.routes, st, d)
  }

  ghost predicate AllFine(s0: Snapshot, states: seq<Snapshot>, st: RuntimeState, d: DesiredState) {
    forall s <- states :: Fine(s0, s, st, d)
  }

  lemma StillFine(s0: Snapshot, st: RuntimeState, d: DesiredState)
    ensures Fine(s0, s0, st, d)
  {
    StartKeepsBoth(st.routesOwned, d.routes);
  }

  lemma RulesFine(s0: Snapshot, states: seq<Snapshot>, st: RuntimeState, d: DesiredState, diff: StateDiff)
    requires diff == Diff(ActualOf(st), d)
    requires forall s <- states :: RulesOnly(s0, s) && s0.rules <= s.rules <= s0.rules + RuleSet(diff.rulesToAdd)
    ensures AllFine(s0, states, st, d)
  {
    StillFine(s0, st, d);
  }

  lemma ChangeFine(s0: Snapshot, s1: Snapshot, s2: Snapshot, change: Log, st: RuntimeState, d: DesiredState,
                   done: bool)
    requires RulesOnly(s0, s1)
    requires var x := Diff(ActualOf(st), d);
             && s1.rules == s0.rules + RuleSet(x.rulesToAdd)
             && forall s <- change.Forward() + [s2] :: s1.rules - RuleSet(x.rulesToRemove) <= s.rules <= s1.rules
    requires s2.main == s1.main && s2.fw == s1.fw
    requires forall s <- change.Forward() :: s.main == s1.main && s.fw == s1.fw
    requires Synced(s1.routes, st.routesOwned) && Separable(st.routesOwned, d.routes) ==>
               forall s <- change.Forward() :: KeepsBoth(s.routes, st.routesOwned, d.routes)
    requires Synced(s1.routes, st.routesOwned) && Separable(st.routesOwned, d.routes) && done ==>
               KeepsBoth(s2.routes, st.routesOwned, d.routes)
    ensures AllFine(s0, change.Forward(), st, d)
    ensures Held(s0, s2, st, d) && (done ==> Fine(s0, s2, st, d))
  {
    hide Synced, Separable, Reversible, KeepsBoth, RuleSet, Diff;
    assert s2 in change.Forward() + [s2];
    forall s | s in change.Forward() ensures Held(s0, s, st, d) { assert s in change.Forward() + [s2]; }
  }

  lemma PartlyAdded(t0: Table, t: Table, diff: StateDiff)
    requires exists i :: 0 <= i <= |diff.routesToAdd| && t == Install(t0, diff.routesToAdd[..i])
    ensures Undoable(t0, t, diff)
  {
    var i :| 0 <= i <= |diff.routesToAdd| && t == Install(t0, diff.routesToAdd[..i]);
    assert Shrunk(Install(t0, diff.routesToAdd[..i]), t, diff.routesToRemove);
  }

  lemma FullyAdded(t0: Table, t: Table, diff: StateDiff)
    requires Shrunk(Install(t0, diff.routesToAdd), t, diff.routesToRemove)
    ensures Undoable(t0, t, diff)
  {
    FullSlice(diff.routesToAdd);
    assert Shrunk(Install(t0, diff.routesToAdd[..|diff.routesToAdd|]), t, diff.routesToRemove);
  }

  lemma WanFine(s0: Snapshot, s2: Snapshot, states: seq<Snapshot>, st: RuntimeState, d: DesiredState)
    requires Held(s0, s2, st, d)
    requires AddClaim(s0.routes, s2.routes, st, d)
    requires forall s <- states :: MainOnly(s2, s) && Calm(s2, s, d.wanInterface)
    ensures AllFine(s0, states, st, d)
  {
  }

  lemma NoUndoClaims(s0: Snapshot, s1: Snapshot, st: RuntimeState, d: DesiredState, r: Outcome, log: Log,
                     undone: bool)
    requires log.guard == [] && log.undo == []
    requires AllFine(s0, log.Forward(), st, d) && Fine(s0, s1, st, d)
    requires !RolledBack(r) && (Committed(r) ==> Observed(s1.routes, st.allocatedTable, d.routes))
    ensures RunClaims(s0, s1, st, d, r, log, undone)
  {
    hide Held, Synced, Separable, Reversible, KeepsBoth, Observed;
    assert log.All() == log.Forward();
  }

  lemma UndoClaims(s0: Snapshot, s2: Snapshot, s3: Snapshot, st: RuntimeState, d: DesiredState, r: Outcome, log: Log,
                   undone: bool)
    requires log.guard == [] && AllFine(s0, log.Forward(), st, d) && Held(s0, s2, st, d)
    requires undone ==> Undoable(s0.routes, s2.routes, Diff(ActualOf(st), d))
                           && Passes(s2.routes, log.undo, Diff(ActualOf(st), d).routesToAdd)
    requires RoutesOnly(s2, s3) && forall s <- log.undo :: RoutesOnly(s2, s)
    requires !Committed(r)
    requires undone && Synced(s0.routes, st.routesOwned) && Reversible(st.routesOwned, d.routes) ==>
               s3.routes == s0.routes
    ensures RunClaims(s0, s3, st, d, r, log, undone)
  {
    hide Synced, Separable, Reversible, KeepsBoth, Observed, HasDefault, Undoable, Passes, Diff, RuleSet;
    assert log.All() == log.Forward() + log.undo;
    forall s | s in log.All() + [s3] ensures Held(s0, s, st, d) {
      if s in log.Forward() { assert Fine(s0, s, st, d); }
    }
    forall s | s in log.Forward() ensures AddClaim(s0.routes, s.routes, st, d) { assert Fine(s0, s, st, d); }
  }

  lemma CommitIsClean(s0: Snapshot, s2: Snapshot, s3: Snapshot, st: RuntimeState, d: DesiredState)
    requires DiffApplied(s0, s2, st, d) && s3.routes == s2.routes && s3.rules == s2.rules
    requires d.wanInterface.Some? ==>
               forall q <- d.routes :: q.outputInterface != "" && q.outputInterface != d.wanInterface.value
                                       ==> !HasDefault(s3.main, q.outputInterface)
    ensures CleanCommit(s0, s3, st, d)
  {
  }

  lemma EndIsClean(s0: Snapshot, s2: Snapshot, s3: Snapshot, st: RuntimeState, d: DesiredState, r: Outcome, log: Log)
    requires DiffApplied(s0, s2, st, d) && s3.rules == s2.rules && MainDone(s0.main, s3.main, d)
    requires Committed(r) || RolledBack(r) || r == Err(SaveFailed)
    requires RolledBack(r) <==> !Observed(s2.routes, st.allocatedTable, d.routes)
    requires RolledBack(r) ==> Passes(s2.routes, log.undo, Diff(ActualOf(st), d).routesToAdd)
    requires RolledBack(r) && NoDefaults(st.routesOwned) ==>
               s3.routes == Install(DeleteAll(s2.routes, Diff(ActualOf(st), d).routesToAdd), st.routesOwned)
    ensures CleanEnd(s0, s3, st, d, r, log)
  {
  }

  // ---------------------------------------------------------------- the reconciler

  lemma FirewallInterfacesMember(d: DesiredState)
    ensures forall i :: i in FirewallInterfaces(d)
              <==> i in d.lanInterfaces || exists a <- d.firewallWhitelist :: a.iface == i
  {
    forall i ensures i in FirewallInterfaces(d)
               <==> i in d.lanInterfaces || exists a <- d.firewallWhitelist :: a.iface == i
    {
      SortDedupSpec(d.lanInterfaces + FlatMap(d.firewallWhitelist, (a: Allowance) => [a.iface]));
      FlatMapMember(d.firewallWhitelist, (a: Allowance) => [a.iface], i);
    }
  }

  function ActiveInterfaces(d: DesiredState): (ifaces: seq<string>)
    ensures StrictlySorted(ifaces)
    ensures forall i :: i in ifaces <==> i in d.lanInterfaces || exists a <- d.firewallWhitelist :: a.iface == i
  {
    SortDedupSpec(d.lanInterfaces + FlatMap(d.firewallWhitelist, (a: Allowance) => [a.iface]));
    FirewallInterfacesMember(d);
    FirewallInterfaces(d)
  }

  /** The early return: nothing to route and nothing to filter. */
  predicate NothingToDo(st: RuntimeState, d: DesiredState) {
    && Diff(ActualOf(st), d).IsEmpty()
    && st.firewallWhitelist == d.firewallWhitelist
    && st.firewallBlacklist == d.blacklist
    && st.firewallInterfaces == ActiveInterfaces(d)
  }

  /** There is nothing to do if and only if the record owns every desired route and rule, no owned
      one with the recorded identifiers is undesired, and the recorded filter is the desired one:
      its whitelist, its blacklist, and its interfaces in order without repetition. */
  lemma NothingToDoExactly(st: RuntimeState, d: DesiredState)
    ensures NothingToDo(st, d) <==>
            && (forall r <- d.routes :: r in st.routesOwned) && (forall r <- d.rules :: r in st.rulesOwned)
            && (forall r <- st.routesOwned :: r.table == st.allocatedTable ==> r in d.routes)
            && (forall r <- st.rulesOwned | r == RpdbRule(st.rulePriority, st.allocatedTable) :: r in d.rules)
            && st.firewallWhitelist == d.firewallWhitelist && st.firewallBlacklist == d.blacklist
            && StrictlySorted(st.firewallInterfaces)
            && forall i :: i in st.firewallInterfaces
                 <==> i in d.lanInterfaces || exists a <- d.firewallWhitelist :: a.iface == i
  {
    hide ActiveInterfaces, Diff;
    EmptyDiffIff(ActualOf(st), d);
    if StrictlySorted(st.firewallInterfaces) && forall i :: i in st.firewallInterfaces <==> i in ActiveInterfaces(d) {
      SortedUnique(st.firewallInterfaces, ActiveInterfaces(d));
    }
  }

  /** Right after a commit the same desired state needs no work. */
  lemma CommittedIsQuiet(st: RuntimeState, d: DesiredState)
    ensures NothingToDo(Commit(st, d, ActiveInterfaces(d)), d)
  {
    EmptyDiffIff(ActualOf(Commit(st, d, ActiveInterfaces(d))), d);
  }

  /** Before the guard is complete in both families on every interface, no route and no rule
      has moved; afterwards every state obeys the desired policy. */
  ghost predicate GuardFirst(s0: Snapshot, s1: Snapshot, d: DesiredState, log: Log) {
    && (forall s <- log.guard :: GuardStep(s0, s, ActiveInterfaces(d)))
    && (log.Routing() != [] ==>
          forall s <- log.Routing() + [s1] ::
            PairwiseApart(ActiveInterfaces(d)) ==> GovernedAll(s.fw, ActiveInterfaces(d), d))
  }

  /** With a configured WAN every state of the run has its default route. */
  ghost predicate NeverStranded(d: DesiredState, log: Log) {
    d.wanInterface.Some? ==> forall s <- log.All() :: HasDefault(s.main, d.wanInterface.value)
  }

  /** A WAN that had its default route still has it. */
  predicate DefaultStays(m0: MainTable, m: MainTable, wan: Option<string>) {
    wan.Some? && HasDefault(m0, wan.value) ==> HasDefault(m, wan.value)
  }

  /** Where a run without a failure ends with a report. */
  predicate Proceeds(main: MainTable, file: StateFile, d: DesiredState, dryRun: bool) {
    && !file.Corrupt? && ValidDesired(d)
    && (dryRun || NothingToDo(Recorded(file), d)
        || (d.wanInterface.Some? ==> HasDefault(main, d.wanInterface.value)))
  }

  ghost predicate MakeBeforeBreak(s0: Snapshot, st: RuntimeState, d: DesiredState, log: Log) {
    Synced(s0.routes, st.routesOwned) && Separable(st.routesOwned, d.routes) ==>
      forall s <- log.guard + log.Forward() :: KeepsBoth(s.routes, st.routesOwned, d.routes)
  }

  lemma CleanFromStart(s0: Snapshot, s1: Snapshot, s2: Snapshot, st: RuntimeState, d: DesiredState, r: Outcome,
                       run: Log, log: Log)
    requires s1.routes == s0.routes && s1.rules == s0.rules && s1.main == s0.main && log.undo == run.undo
    ensures CleanCommit(s1, s2, st, d) <==> CleanCommit(s0, s2, st, d)
    ensures CleanEnd(s1, s2, st, d, r, run) <==> CleanEnd(s0, s2, st, d, r, log)
  {
  }

  lemma GuardOnly(s0: Snapshot, s1: Snapshot, st: RuntimeState, d: DesiredState, log: Log)
    requires log == EMPTY_LOG.(guard := log.guard)
    requires forall s <- log.guard + [s1] :: GuardStep(s0, s, ActiveInterfaces(d))
    requires d.wanInterface.Some? ==> HasDefault(s0.main, d.wanInterface.value)
    ensures d.wanInterface.Some? ==> HasDefault(s1.main, d.wanInterface.value)
    ensures GuardFirst(s0, s1, d, log) && NeverStranded(d, log) && MakeBeforeBreak(s0, st, d, log)
    ensures forall s <- log.All() + [s1] :: RulesWithin(s0, s, st, d)
  {
    hide HasDefault, PairwiseApart, GuardKept, Install, KeepsBoth, Separable, Reversible, Diff, RuleSet;
    assert log.Forward() == [] && log.Routing() == [] && log.All() == log.guard;
    StartKeepsBoth(st.routesOwned, d.routes);
    forall s | s in log.guard + [s1] ensures s.routes == s0.routes && s.rules == s0.rules && s.main == s0.main {
      assert GuardStep(s0, s, ActiveInterfaces(d));
    }
  }

  lemma IdleRun(s0: Snapshot, st: RuntimeState, d: DesiredState)
    ensures GuardFirst(s0, s0, d, EMPTY_LOG) && NeverStranded(d, EMPTY_LOG) && MakeBeforeBreak(s0, st, d, EMPTY_LOG)
    ensures RulesWithin(s0, s0, st, d) && EMPTY_LOG.All() == []
  {
  }

  /** A guarded run of the routing part, seen from before the guard. */
  lemma AfterGuard(s0: Snapshot, s1: Snapshot, s2: Snapshot, st: RuntimeState, d: DesiredState, r: Outcome,
                   run: Log, log: Log, undone: bool)
    requires run.guard == [] && log == run.(guard := log.guard)
    requires forall s <- log.guard + [s1] :: GuardStep(s0, s, ActiveInterfaces(d))
    requires PairwiseApart(ActiveInterfaces(d)) ==> GovernedAll(s1.fw, ActiveInterfaces(d), d)
    requires d.wanInterface.Some? ==> HasDefault(s0.main, d.wanInterface.value)
    requires RunClaims(s1, s2, st, d, r, run, undone)
    ensures d.wanInterface.Some? ==> HasDefault(s2.main, d.wanInterface.value)
    ensures GuardFirst(s0, s2, d, log) && NeverStranded(d, log) && MakeBeforeBreak(s0, st, d, log)
    ensures forall s <- log.All() + [s2] :: RulesWithin(s0, s, st, d)
    ensures RolledBack(r) && undone ==> UndoGap(s0.routes, st, d, log)
    ensures RolledBack(r) && undone ==>
              Synced(s0.routes, st.routesOwned) && Reversible(st.routesOwned, d.routes) ==> s2.routes == s0.routes
    ensures Committed(r) ==> Observed(s2.routes, st.allocatedTable, d.routes)
  {
    hide HasDefault, PairwiseApart, GovernedAll, GuardKept, Install, KeepsBoth, Separable, Reversible, Observed,
         Undoable, Passes, Diff, RuleSet;
    assert s1 in log.guard + [s1];
    assert run.All() == run.Routing() && log.Routing() == run.Routing() && log.All() == log.guard + run.All();
    GuardOnly(s0, s1, st, d, EMPTY_LOG.(guard := log.guard));
    assert EMPTY_LOG.(guard := log.guard).All() == log.guard;
    assert log.guard + EMPTY_LOG.(guard := log.guard).Forward() == log.guard;
    forall s | s in run.All() + [s2]
      ensures s.fw == s1.fw && (d.wanInterface.Some? ==> HasDefault(s.main, d.wanInterface.value))
      ensures RulesWithin(s0, s, st, d)
    {
      assert Held(s1, s, st, d);
    }
  }

  class Reconciler {
    const netlink: Host
    const stateManager: StateStore

    constructor (netlink: Host, stateManager: StateStore)
      ensures this.netlink == netlink && this.stateManager == stateManager
    {
      this.netlink := netlink;
      this.stateManager := stateManager;
    }

    /** How often a command or a file operation failed so far. */
    ghost function Failures(): nat
      reads this, netlink, stateManager
    {
      netlink.failed + stateManager.failed
    }

    /** `Reconciler::reconcile` */
    method Reconcile(d: DesiredState, dryRun: bool) returns (r: Outcome, ghost log: Log)
      modifies netlink, stateManager
      ensures netlink.trace == old(netlink.trace) + log.All()
      ensures GuardFirst(old(netlink.Now()), netlink.Now(), d, log)
      ensures NeverStranded(d, log) && DefaultStays(old(netlink.main), netlink.main, d.wanInterface)
      ensures MakeBeforeBreak(old(netlink.Now()), Recorded(old(stateManager.file)), d, log)
      ensures forall s <- log.All() + [netlink.Now()] ::
                RulesWithin(old(netlink.Now()), s, Recorded(old(stateManager.file)), d)
      ensures var st := Recorded(old(stateManager.file));
              RolledBack(r) && UndoSucceeded(netlink.results, st, d) ==>
                && UndoGap(old(netlink.routes), st, d, log)
                && (Synced(old(netlink.routes), st.routesOwned) && Reversible(st.routesOwned, d.routes) ==>
                      netlink.routes == old(netlink.routes))
      ensures RolledBack(r) && netlink.failed <= old(netlink.failed) + (if r.value.applied then 0 else 1) ==>
                UndoSucceeded(netlink.results, Recorded(old(stateManager.file)), d)
      ensures Committed(r) ==>
                && Observed(netlink.routes, Recorded(old(stateManager.file)).allocatedTable, d.routes)
                && stateManager.file == Saved(Commit(Recorded(old(stateManager.file)), d, ActiveInterfaces(d)))
                && Leaves(old(netlink.routes), netlink.routes, Recorded(old(stateManager.file)), d,
                          netlink.failed - old(netlink.failed))
      ensures Committed(r) ==> !RolledBack(r)
      ensures r.Ok? ==> r.value.dryRun == dryRun && r.value.diff == Diff(ActualOf(Recorded(old(stateManager.file))), d)
      ensures r.Ok? && !Committed(r) && !RolledBack(r) ==> !r.value.applied && r.value.verified
      ensures !Committed(r) ==>
                stateManager.file == old(stateManager.file) || (r == Err(SaveFailed) && stateManager.file == Corrupt)
      ensures Committed(r) && netlink.failed == old(netlink.failed) ==>
                CleanCommit(old(netlink.Now()), netlink.Now(), Recorded(old(stateManager.file)), d)
      ensures r == Err(LoadFailed) || dryRun || NothingToDo(Recorded(old(stateManager.file)), d) || !ValidDesired(d) ==>
                log.All() == [] && netlink.Now() == old(netlink.Now()) && !Committed(r) && !RolledBack(r)
      ensures (r.Ok? || r.error == SaveFailed) && !dryRun && !NothingToDo(Recorded(old(stateManager.file)), d) ==>
                netlink.failed == old(netlink.failed) ==>
                  CleanEnd(old(netlink.Now()), netlink.Now(), Recorded(old(stateManager.file)), d, r, log)
      ensures Failures() == old(Failures()) ==>
                (r.Ok? <==> Proceeds(old(netlink.main), old(stateManager.file), d, dryRun))
      ensures r.Err? ==>
                match r.error
                case LoadFailed => old(stateManager.file).Corrupt? || stateManager.failed > old(stateManager.failed)
                case PlanRejected(_) => !ValidDesired(d)
                case NoWanRoute =>
                  && d.wanInterface.Some?
                  && (!HasDefault(old(netlink.main), d.wanInterface.value) || netlink.failed > old(netlink.failed))
                case CommandFailed => netlink.failed > old(netlink.failed)
                case SaveFailed => stateManager.failed > old(stateManager.failed)
      ensures netlink.failed >= old(netlink.failed) && stateManager.failed >= old(stateManager.failed)
    {
      hide Leaves, UndoSucceeded, Diff, Observed, CleanCommit, CleanEnd, Commit, Synced, Reversible, UndoGap,
           GovernedAll, PairwiseApart, GuardFirst, NeverStranded, MakeBeforeBreak, RulesWithin, HasDefault,
           ActiveInterfaces;
      log := EMPTY_LOG;
      ghost var s0 := netlink.Now();
      IdleRun(s0, Recorded(stateManager.file), d);
      var loaded := stateManager.Load();
      if loaded.None? { return Err(LoadFailed), log; }
      var st := loaded.value;
      var planned := PlanDiff(ActualOf(st), d);
      if planned.Err? { return Err(PlanRejected(planned.error)), log; }
      var diff := planned.value;
      var ifaces := ActiveInterfaces(d);
      if dryRun || NothingToDo(st, d) {
        return Ok(Report(diff, dryRun, false, true, false)), log;
      }
      if d.wanInterface.Some? {
        var has := HasDefaultRoute(netlink, d.wanInterface.value);
        if has.None? { return Err(CommandFailed), log; }
        if !has.value { return Err(NoWanRoute), log; }
        assert has == Some(true);
      }
      ghost var f1 := netlink.failed;
      r, log := Apply(st, d, diff, ifaces);
      if Committed(r) {
        LeavesMore(s0.routes, netlink.routes, st, d, netlink.failed - f1, netlink.failed - old(netlink.failed));
      }
    }

    /** Guard, then everything else. */
    method Apply(st: RuntimeState, d: DesiredState, diff: StateDiff, ifaces: seq<string>)
      returns (r: Outcome, ghost log: Log)
      requires diff == Diff(ActualOf(st), d) && ValidDesired(d) && ifaces == ActiveInterfaces(d)
      requires d.wanInterface.Some? ==> HasDefault(netlink.main, d.wanInterface.value)
      modifies netlink, stateManager
      ensures netlink.trace == old(netlink.trace) + log.All()
      ensures GuardFirst(old(netlink.Now()), netlink.Now(), d, log)
      ensures NeverStranded(d, log) && (d.wanInterface.Some? ==> HasDefault(netlink.main, d.wanInterface.value))
      ensures MakeBeforeBreak(old(netlink.Now()), st, d, log)
      ensures forall s <- log.All() + [netlink.Now()] :: RulesWithin(old(netlink.Now()), s, st, d)
      ensures RolledBack(r) && UndoSucceeded(netlink.results, st, d) ==>
                && UndoGap(old(netlink.routes), st, d, log)
                && (Synced(old(netlink.routes), st.routesOwned) && Reversible(st.routesOwned, d.routes) ==>
                      netlink.routes == old(netlink.routes))
      ensures RolledBack(r) && netlink.failed <= old(netlink.failed) + (if r.value.applied then 0 else 1) ==>
                UndoSucceeded(netlink.results, st, d)
      ensures Committed(r) ==>
                && Observed(netlink.routes, st.allocatedTable, d.routes)
                && Leaves(old(netlink.routes), netlink.routes, st, d, netlink.failed - old(netlink.failed))
      ensures EndsWell(r, diff, old(stateManager.file), stateManager.file, st, d, ifaces)
      ensures Committed(r) && netlink.failed == old(netlink.failed) ==>
                CleanCommit(old(netlink.Now()), netlink.Now(), st, d)
      ensures r == Err(CommandFailed) ==> netlink.failed > old(netlink.failed)
      ensures r == Err(SaveFailed) ==> stateManager.failed > old(stateManager.failed)
      ensures netlink.failed == old(netlink.failed) ==>
                CleanEnd(old(netlink.Now()), netlink.Now(), st, d, r, log)
      ensures netlink.failed >= old(netlink.failed) && stateManager.failed >= old(stateManager.failed)
    {
      hide Calm, Diff, Install, Synced, Separable, Reversible, KeepsBoth, Observed, CleanCommit, CleanEnd, Commit,
           ValidDesired, HasDefault, GovernedAll, PairwiseApart, RulesWithin, UndoGap, UndoSucceeded, Leaves;
      ghost var s0 := netlink.Now();
      SortedDistinct(ifaces);
      var ok;
      ghost var guard;
      ok, guard := ApplyFirewall(netlink, d, ifaces);
      ghost var s1 := netlink.Now();
      assert s1 in guard + [s1];
      if !ok {
        r, log := Err(CommandFailed), EMPTY_LOG.(guard := guard);
        GuardOnly(s0, s1, st, d, log);
        return;
      }
      ghost var f1 := netlink.failed;
      r, log := ApplyDiff(netlink, stateManager, st, d, diff, ifaces);
      ghost var run := log;
      log := log.(guard := guard);
      AfterGuard(s0, s1, netlink.Now(), st, d, r, run, log, UndoSucceeded(netlink.results, st, d));
      CleanFromStart(s0, s1, netlink.Now(), st, d, r, run, log);
      if Committed(r) {
        LeavesMore(s0.routes, netlink.routes, st, d, netlink.failed - f1, netlink.failed - old(netlink.failed));
      }
    }

    /** `Reconciler::reset`: works from the record when there is one, then scans for the
        default rule and table whether or not a record was ever written. */
    method Reset() returns (ghost record: Option<RuntimeState>, ghost wan: Option<string>)
      modifies netlink, stateManager
      ensures record.Some? ==> old(stateManager.file) == Saved(record.value)
      ensures netlink.rules <= old(netlink.rules) && netlink.routes.Keys <= old(netlink.routes).Keys
      ensures forall fam :: ForeignKept(old(netlink.fw).Of(fam), netlink.fw.Of(fam))
      ensures netlink.failed == old(netlink.failed) ==>
                && RpdbRule(12000, 52000) !in netlink.rules
                && netlink.routes == Flushed(WithoutRecorded(old(netlink.routes), record), 52000)
                && RecordedRulesGone(netlink.rules, record)
                && ToolChainsGone(old(netlink.fw), netlink.fw)
                && netlink.main == Restored(old(netlink.main), ResetDevices(wan))
                && (if wan.Some? then HasDefault(old(netlink.main), wan.value)
                    else forall dev :: !HasDefault(old(netlink.main), dev))
      ensures stateManager.file == old(stateManager.file) || stateManager.file == Absent
      ensures stateManager.failed == old(stateManager.failed) ==>
                stateManager.file == Absent && (record.Some? <==> old(stateManager.file).Saved?)
      ensures netlink.failed >= old(netlink.failed) && stateManager.failed >= old(stateManager.failed)
    {
      hide WithoutRecorded, RecordedRulesGone, ToolChainsGone, ForeignKept, Flushed, HasDefault, Restored;
      CleanupAll(netlink);
      record := ForgetRecord();
      FlushedKeys(netlink.routes, 52000);
      ghost var known := netlink.rules;
      ghost var steps;
      var gone, o, first;
      gone, steps := RemoveRpdbRule(netlink, RpdbRule(12000, 52000));
      GoneStaysGone(known, netlink.rules, record);
      o := netlink.RouteFlush(52000);
      o, first := netlink.DefaultFirst();
      wan := first;
      RestoredTogether(netlink.main, wan);
      if first.Some? { steps := RestoreWan(netlink, first.value); }
      steps := RestoreWan(netlink, "wlan0");
      steps := RestoreWan(netlink, "wlan1");
    }

    /** The recorded routes and rules, then the record itself. */
    method ForgetRecord() returns (ghost record: Option<RuntimeState>)
      modifies netlink`routes, netlink`rules, netlink`trace, netlink`failed, netlink`results, stateManager
      ensures record.Some? ==> old(stateManager.file) == Saved(record.value)
      ensures netlink.rules <= old(netlink.rules) && netlink.routes.Keys <= old(netlink.routes).Keys
      ensures netlink.failed == old(netlink.failed) ==>
                && netlink.routes == WithoutRecorded(old(netlink.routes), record)
                && RecordedRulesGone(netlink.rules, record)
      ensures stateManager.file == old(stateManager.file) || stateManager.file == Absent
      ensures stateManager.failed == old(stateManager.failed) ==>
                stateManager.file == Absent && (record.Some? <==> old(stateManager.file).Saved?)
      ensures netlink.failed >= old(netlink.failed) && stateManager.failed >= old(stateManager.failed)
    {
      hide DeleteAll, Shrunk;
      record := None;
      ghost var t0 := netlink.routes;
      if !stateManager.file.Absent? {
        var loaded := stateManager.Load();
        if loaded.Some? {
          record := loaded;
          var st := loaded.value;
          ghost var steps := RemoveRoutes(netlink, st.routesOwned);
          ShrunkKeys(t0, steps + [netlink.Now()], st.routesOwned);
          assert netlink.Now() in steps + [netlink.Now()];
          steps := RemoveRules(netlink, st.rulesOwned);
          var gone;
          gone, steps := RemoveRpdbRule(netlink, RpdbRule(st.rulePriority, st.allocatedTable));
        }
        var cleared := stateManager.Clear();
      }
    }
  }

  /** The devices whose metric-50 entries a reset removes. */
  function ResetDevices(wan: Option<string>): set<string> {
    {"wlan0", "wlan1"} + if wan.Some? then {wan.value} else {}
  }

  lemma RestoredTogether(m: MainTable, wan: Option<string>)
    ensures var first := if wan.Some? then Restored(m, {wan.value}) else m;
            Restored(Restored(first, {"wlan0"}), {"wlan1"}) == Restored(m, ResetDevices(wan))
  {
  }

  /** What a run did to the main table and a reset does not take back.  The reset gives back the
      main table from before the run if and only if no other interface of a desired route had a
      default, no metric-50 entry belonged to a device the reset looks at, and no metric-50 entry
      made way for a copy; should the reset not look at the WAN, every copy must have been there. */
  lemma ApplyThenReset(m0: MainTable, m1: MainTable, wan: Option<string>, rs: seq<Route>, first: Option<string>)
    requires MainSettled(m0, m1, wan, rs)
    ensures Restored(m1, ResetDevices(first)) == m0
            <==> && (forall i <- OtherInterfaces(rs, wan) :: !HasDefault(m0, i))
                 && (forall k <- m0 :: k.prio == 50 ==> m0[k].dev !in ResetDevices(first))
                 && (wan.Some? ==>
                       forall k | Copied(m0, wan.value, k) ::
                         if wan.value in ResetDevices(first) then k !in m0 else SameAt(m0, m1, k))
  {
    hide OtherInterfaces, ResetDevices, Copied, Restored, WithoutDefaults;
    var others, devs := OtherInterfaces(rs, wan), ResetDevices(first);
    var m := Restored(m1, devs);
    OthersExcludeWan(rs, wan);
    forall k ensures Undone(m0, m1, wan, others, devs, k) { UndoneAt(m0, m1, wan, rs, devs, k); }
    if m == m0 {
      forall i, k | i in others && k in m0.Keys ensures !IsDefaultOn(m0, k, i) {
        assert Undone(m0, m1, wan, others, devs, k);
      }
      forall k | k in m0 && k.prio == 50 ensures m0[k].dev !in devs { assert Undone(m0, m1, wan, others, devs, k); }
      if wan.Some? {
        forall k | Copied(m0, wan.value, k) ensures if wan.value in devs then k !in m0 else SameAt(m0, m1, k) {
          assert Undone(m0, m1, wan, others, devs, k);
        }
      }
    } else if && (forall i <- others :: !HasDefault(m0, i))
              && (forall k <- m0 :: k.prio == 50 ==> m0[k].dev !in devs)
              && (wan.Some? ==> forall k | Copied(m0, wan.value, k) ::
                    if wan.value in devs then k !in m0 else SameAt(m0, m1, k))
    {
      forall k ensures SameAt(m0, m, k) {
        assert Undone(m0, m1, wan, others, devs, k);
        if k in m0 { assert !HasDefault(m0, m0[k].dev) || m0[k].dev !in others; }
        if k in m0 && k.dest == DEFAULT_NET { assert IsDefaultOn(m0, k, m0[k].dev); }
      }
      SameEverywhere(m0, m);
    }
  }

  /** What is left at one key after settling and restoring. */
  ghost predicate Undone(m0: MainTable, m1: MainTable, wan: Option<string>, others: set<string>, devs: set<string>,
                         k: MainKey)
  {
    var m := Restored(m1, devs);
    if wan.Some? && Copied(m0, wan.value, k) then
      && k.prio == 50 && k in m1 && m1[k].dev == wan.value && wan.value !in others
      && (if wan.value in devs then k !in m else k in m && m[k] == m1[k])
    else if k in m0 && ((k.dest == DEFAULT_NET && m0[k].dev in others) || (k.prio == 50 && m0[k].dev in devs)) then
      k !in m
    else SameAt(m0, m, k)
  }

  lemma UndoneAt(m0: MainTable, m1: MainTable, wan: Option<string>, rs: seq<Route>, devs: set<string>, k: MainKey)
    requires MainSettled(m0, m1, wan, rs)
    ensures Undone(m0, m1, wan, OtherInterfaces(rs, wan), devs, k)
  {
    hide OtherInterfaces, Copied, Prioritized;
    OthersExcludeWan(rs, wan);
    var m :| Prepared(m0, m, wan) && m1 == WithoutDefaults(m, OtherInterfaces(rs, wan));
    if wan.Some? { CopyAt(m0, m, wan.value, k); }
  }

  lemma CopyAt(m0: MainTable, m: MainTable, wan: string, k: MainKey)
    requires Prioritized(m0, m, wan)
    ensures if Copied(m0, wan, k) then k.prio == 50 && k in m && m[k].dev == wan else SameAt(m0, m, k)
  {
    if Copied(m0, wan, k) {
      var j :| CopiesTo(m0, wan, j, k, m[k]);
    } else {
      assert SameAt(m0, m, k);
    }
  }

  lemma OthersExcludeWan(rs: seq<Route>, wan: Option<string>)
    ensures wan.Some? ==> wan.value !in OtherInterfaces(rs, wan)
  {
  }

  /** The reset looks at the WAN if no interface outside the policy had a default route. */
  lemma ResetFindsWan(m0: MainTable, m1: MainTable, wan: string, rs: seq<Route>, first: string)
    requires MainSettled(m0, m1, Some(wan), rs) && HasDefault(m1, first)
    requires forall dev | HasDefault(m0, dev) :: dev == wan || dev in OtherInterfaces(rs, Some(wan))
    ensures first == wan && wan in ResetDevices(Some(first))
  {
    hide OtherInterfaces, MainSettled, HasDefault;
    DefaultLeft(m0, m1, wan, rs, first);
  }

  /** A default after settling is the WAN's, or an old one of an interface not in use. */
  lemma DefaultLeft(m0: MainTable, m1: MainTable, wan: string, rs: seq<Route>, first: string)
    requires MainSettled(m0, m1, Some(wan), rs) && HasDefault(m1, first)
    ensures first == wan || (HasDefault(m0, first) && first !in OtherInterfaces(rs, Some(wan)))
  {
    hide OtherInterfaces, CopyOf;
    var m :| Prepared(m0, m, Some(wan)) && m1 == WithoutDefaults(m, OtherInterfaces(rs, Some(wan)));
    var k :| k in m1.Keys && IsDefaultOn(m1, k, first);
    CopyIsWans(m0, m, wan, k);
  }

  lemma CopyIsWans(m0: MainTable, m: MainTable, wan: string, k: MainKey)
    requires Prioritized(m0, m, wan) && k in m
    ensures m[k].dev == wan || SameAt(m0, m, k)
  {
    CopyAt(m0, m, wan, k);
  }

  /** From an apply without a failed command to the exit, with every default route on the WAN or
      on an interface in use: the reset gives the old main table back if and only if only the
      WAN had one, nothing of the WAN, wlan0 or wlan1 had metric 50, and no copy displaced
      anything. */
  lemma ShutdownRestoresMain(h0: Snapshot, h1: Snapshot, st: RuntimeState, d: DesiredState, r: Outcome, log: Log,
                             wan: string, first: Option<string>)
    requires CleanEnd(h0, h1, st, d, r, log) && d.wanInterface == Some(wan) && HasDefault(h1.main, wan)
    requires if first.Some? then HasDefault(h1.main, first.value) else forall dev :: !HasDefault(h1.main, dev)
    requires forall dev | HasDefault(h0.main, dev) :: dev == wan || dev in OtherInterfaces(d.routes, Some(wan))
    ensures Restored(h1.main, ResetDevices(first)) == h0.main
            <==> && (forall i <- OtherInterfaces(d.routes, Some(wan)) :: !HasDefault(h0.main, i))
                 && (forall k <- h0.main :: k.prio == 50 ==> h0.main[k].dev !in {wan, "wlan0", "wlan1"})
                 && (forall k | Copied(h0.main, wan, k) :: k !in h0.main)
  {
    hide HasDefault, OtherInterfaces, Copied, MainSettled, Restored, Observed, AfterDiff, AfterUndo, RulesAfter, Diff;
    assert MainSettled(h0.main, h1.main, Some(wan), d.routes);
    ResetFindsWan(h0.main, h1.main, wan, d.routes, first.value);
    ApplyThenReset(h0.main, h1.main, Some(wan), d.routes, first);
  }

  lemma LanCopies(g: Addr, h: Addr)
    ensures var m := map[MainKey(DEFAULT_NET, 100) := MainHop("wlan0", Some(g)),
                         MainKey(DEFAULT_NET, 200) := MainHop("eth1", Some(h))];
            forall k :: Copied(m, "wlan0", k) ==> k !in m
  {
  }

  /** The input: a second default route through a LAN interface does not come back. */
  lemma LanDefaultLostInput(g: Addr, h: Addr, r: Route, m1: MainTable)
    requires r.outputInterface == "eth1"
    requires var wan, lan := MainKey(DEFAULT_NET, 100), MainKey(DEFAULT_NET, 200);
             var m0 := map[wan := MainHop("wlan0", Some(g)), lan := MainHop("eth1", Some(h))];
             MainSettled(m0, m1, Some("wlan0"), [r])
    ensures Restored(m1, ResetDevices(Some("wlan0")))
            == map[MainKey(DEFAULT_NET, 100) := MainHop("wlan0", Some(g))]
  {
    var wan, lan := MainKey(DEFAULT_NET, 100), MainKey(DEFAULT_NET, 200);
    var m0 := map[wan := MainHop("wlan0", Some(g)), lan := MainHop("eth1", Some(h))];
    hide MainSettled, Restored, Copied, IsDefaultOn, CopyOf;
    var others, devs := OtherInterfaces([r], Some("wlan0")), ResetDevices(Some("wlan0"));
    assert others == {"eth1"};
    assert forall k :: Copied(m0, "wlan0", k) ==> k !in m0 by { LanCopies(g, h); }
    forall k ensures SameAt(map[wan := MainHop("wlan0", Some(g))], Restored(m1, devs), k) {
      UndoneAt(m0, m1, Some("wlan0"), [r], devs, k);
    }
    SameEverywhere(map[wan := MainHop("wlan0", Some(g))], Restored(m1, devs));
  }

  /** `cleanup_all` */
  method CleanupAll(h: Host)
    modifies h`fw, h`trace, h`failed, h`results
    ensures h.failed == old(h.failed) ==> ToolChainsGone(old(h.fw), h.fw)
    ensures forall fam :: ForeignKept(old(h.fw).Of(fam), h.fw.Of(fam))
    ensures h.failed >= old(h.failed)
  {
    hide ForeignKept;
    ghost var fw0 := h.fw;
    ghost var steps := CleanupFamily(h, V4);
    steps := CleanupFamily(h, V6);
    if h.failed == old(h.failed) {
      forall fam, c | c in fw0.Of(fam).chains && ToolChain(c)
        ensures c !in h.fw.Of(fam).chains && forall g <- h.fw.Of(fam).output :: g.chain != c
      {
      }
    }
  }

  ghost function WithoutRecorded(t: Table, record: Option<RuntimeState>): Table {
    if record.Some? then DeleteAll(t, record.value.routesOwned) else t
  }

  ghost predicate RecordedRulesGone(rules: set<RpdbRule>, record: Option<RuntimeState>) {
    record.Some? ==>
      && RpdbRule(record.value.rulePriority, record.value.allocatedTable) !in rules
      && forall r <- record.value.rulesOwned :: r !in rules
  }

  /** No chain of the tool that existed before exists or is hooked any more. */
  ghost predicate ToolChainsGone(fw0: Filters, fw: Filters) {
    forall fam, c :: c in fw0.Of(fam).chains && ToolChain(c) ==>
      c !in fw.Of(fam).chains && forall g <- fw.Of(fam).output :: g.chain != c
  }

  lemma GoneStaysGone(before: set<RpdbRule>, after: set<RpdbRule>, record: Option<RuntimeState>)
    requires after <= before
    ensures RecordedRulesGone(before, record) ==> RecordedRulesGone(after, record)
  {
  }

  lemma ShrunkKeys(t0: Table, states: seq<Snapshot>, rs: seq<Route>)
    requires forall s <- states :: Shrunk(t0, s.routes, rs)
    ensures forall s <- states :: s.routes.Keys <= t0.Keys
  {
    forall s | s in states ensures s.routes.Keys <= t0.Keys { assert Shrunk(t0, s.routes, rs); }
  }

  lemma FlushedKeys(t: Table, table: nat)
    ensures Flushed(t, table).Keys <= t.Keys
  {
  }

  /** Crash recovery is exact only for IPv4: after a reset without a usable record the default
      table is empty if and only if it held no IPv6 entry. */
  lemma FlushEmptiesIff(t: Table, table: nat)
    ensures (forall k <- Flushed(t, table) :: k.table != table)
            <==> (forall k <- t :: k.table == table ==> k.dest.addr.fam == V4)
  {
    if k :| k in t && k.table == table && k.dest.addr.fam != V4 { assert k in Flushed(t, table); }
  }

  /** With the record of a synced kernel, deleting the recorded routes alone empties it. */
  lemma RecordedResetEmpties(t: Table, owned: seq<Route>)
    requires Synced(t, owned) && Identified(owned)
    ensures DeleteAll(t, owned) == map[]
  {
    DeleteAllShrinks(t, owned);
    forall k | k in DeleteAll(t, owned) ensures false {
      assert k in t;
      var own := InstallOrigin(map[], owned, k);
      OwnMatch(own.value);
      forall j | j in t && DeleteMatches(own.value, j, t[j]) ensures j == k {
        var x := InstallOrigin(map[], owned, j);
      }
      UndoDeletes(t, owned, own.value, k);
    }
  }

  // ---------------------------------------------------------------- what never commits cleanly

  /** Three families of desired states on which every run without a failed command rolls back:
      an IPv6 route, a gateway-only change, and a change of the table identifier.  A gateway
      change also leaves its block without an entry until the rollback re-adds the old one. */
  lemma Ipv6NeverCommits(h0: Snapshot, h1: Snapshot, st: RuntimeState, d: DesiredState, r: Outcome, log: Log, q: Route)
    requires q in d.routes && q.destination.addr.fam == V6
    ensures CleanEnd(h0, h1, st, d, r, log) ==> RolledBack(r)
    ensures forall t :: !Observed(t, st.allocatedTable, d.routes)
  {
    forall t ensures !Observed(t, st.allocatedTable, d.routes) {
      Ipv6NeverObserved(t, st.allocatedTable, d.routes, q);
    }
  }

  lemma GatewayChangeNeverCommits(h0: Snapshot, h1: Snapshot, st: RuntimeState, d: DesiredState, r: Outcome, log: Log,
                                  o: Route, gateway: Option<Addr>)
    requires CleanEnd(h0, h1, st, d, r, log) && Synced(h0.routes, st.routesOwned) && Consistent(st)
    requires Tidy(st.routesOwned) && Tidy(d.routes)
    requires o in st.routesOwned && o !in d.routes && o.routeType == Unicast && gateway != o.gateway
    requires o.(gateway := gateway) in d.routes && o.(gateway := gateway) !in st.routesOwned
    requires forall q | (q in st.routesOwned || q in d.routes) && Trunc(q.destination) == Trunc(o.destination)
                        && q.routeType == Unicast :: q == o || q == o.(gateway := gateway)
    ensures RolledBack(r) && KeyOf(o) !in AfterDiff(h0.routes, st, d)
    ensures Reversible(st.routesOwned, d.routes) ==> h1.routes == h0.routes
  {
    hide Tidy, KeysDistinct, Install, DeleteAll;
    AfterDiffIsApplied(h0.routes, st, d);
    GatewayChangeNeverObserved(st.routesOwned, d.routes, o, gateway, st.allocatedTable);
    CleanUndoRestores(h0, h1, st, d, r, log);
  }

  /** A rollback without a failed command gives a synced kernel its table back. */
  lemma CleanUndoRestores(h0: Snapshot, h1: Snapshot, st: RuntimeState, d: DesiredState, r: Outcome, log: Log)
    requires CleanEnd(h0, h1, st, d, r, log) && Synced(h0.routes, st.routesOwned)
    ensures RolledBack(r) && Reversible(st.routesOwned, d.routes) ==> h1.routes == h0.routes
  {
    hide Install, AfterUndo, Observed, Passes, KeysDistinct, Keyed, Diff;
    if Reversible(st.routesOwned, d.routes) { AfterUndoRestores(h0.routes, st, d); }
  }

  lemma AfterUndoRestores(t0: Table, st: RuntimeState, d: DesiredState)
    requires Synced(t0, st.routesOwned) && Reversible(st.routesOwned, d.routes)
    ensures AfterUndo(t0, st, d) == t0 && NoDefaults(st.routesOwned)
  {
    hide Install, DeleteAll, Shrunk, Undoable, KeysDistinct, Keyed, Diff;
    var x := Diff(ActualOf(st), d);
    DeleteAllShrinks(Install(t0, x.routesToAdd), x.routesToRemove);
    FullyAdded(t0, AfterDiff(t0, st, d), x);
    UndoRestores(t0, AfterDiff(t0, st, d), st, d, x);
  }

  lemma TableChangeNeverCommits(h0: Snapshot, h1: Snapshot, st: RuntimeState, d: DesiredState, r: Outcome, log: Log)
    requires CleanEnd(h0, h1, st, d, r, log) && Converging(h0.routes, st, d)
    requires d.routes != [] && forall q <- d.routes :: q.table != st.allocatedTable
    ensures RolledBack(r)
  {
    AfterDiffIsApplied(h0.routes, st, d);
    TableChangeNeverObserved(st.routesOwned, d.routes, st.allocatedTable);
  }

  /** A table change loses the way into the old table.  The run removes the old rule, cannot
      verify the new table, and rolls back the routes alone; the record still owns the old rule,
      so no later desired state has it added again. */
  lemma TableChangeCutsOff(h0: Snapshot, h1: Snapshot, st: RuntimeState, d: DesiredState, r: Outcome, log: Log,
                           later: DesiredState)
    requires CleanEnd(h0, h1, st, d, r, log) && Converging(h0.routes, st, d)
    requires d.routes != [] && forall q <- d.routes :: q.table != st.allocatedTable
    requires forall q <- d.rules :: q.table != st.allocatedTable
    requires var own := RpdbRule(st.rulePriority, st.allocatedTable);
             own in st.rulesOwned && forall q <- h0.rules :: q.table == st.allocatedTable ==> q == own
    ensures RolledBack(r)
    ensures forall ip :: !Consulted(h1, st.allocatedTable, ip)
    ensures RpdbRule(st.rulePriority, st.allocatedTable) !in Diff(ActualOf(st), later).rulesToAdd
  {
    hide Converging, CleanEnd, Diff;
    var own := RpdbRule(st.rulePriority, st.allocatedTable);
    TableChangeNeverCommits(h0, h1, st, d, r, log);
    CleanRules(h0, h1, st, d, r, log);
    forall q | q in h1.rules ensures q.table != st.allocatedTable {
      RulesAfterMember(h0.rules, st, d, q);
    }
    NeverReAdded(st, later, own);
  }

  lemma CleanRules(h0: Snapshot, h1: Snapshot, st: RuntimeState, d: DesiredState, r: Outcome, log: Log)
    requires CleanEnd(h0, h1, st, d, r, log)
    ensures h1.rules == RulesAfter(h0.rules, st, d)
  {
  }

  lemma NeverReAdded(st: RuntimeState, later: DesiredState, own: RpdbRule)
    requires own in st.rulesOwned
    ensures own !in Diff(ActualOf(st), later).rulesToAdd
  {
    MinusMember(later.rules, st.rulesOwned, own);
  }

  // ---------------------------------------------------------------- leftovers of a commit

  /** What a commit leaves when removals failed: the desired routes, and those owned routes that
      were not removed, as many as commands failed at most. */
  lemma CommitLeftovers(t0: Table, t: Table, st: RuntimeState, d: DesiredState, n: int) returns (gone: seq<Route>)
    requires Leaves(t0, t, st, d, n)
    requires Synced(t0, st.routesOwned) && Separable(st.routesOwned, d.routes)
    ensures Canonical(t) && Leftovers(t, st.routesOwned, d.routes, gone)
    ensures |Diff(ActualOf(st), d).routesToRemove| - |gone| <= n
  {
    hide Install, DeleteAll, Succeeded, KeysDistinct, Identified, KeyOf, Diff;
    var x := Diff(ActualOf(st), d);
    var oks: seq<bool> :| |oks| == |x.routesToRemove| && Misses(oks) <= n
                          && t == DeleteAll(Install(t0, x.routesToAdd), Succeeded(x.routesToRemove, oks));
    gone := Succeeded(x.routesToRemove, oks);
    SucceededCount(x.routesToRemove, oks);
    DiffMembers(st, d);
    forall r | r in gone ensures r in st.routesOwned && r !in d.routes {
      SucceededMember(x.routesToRemove, oks, r);
    }
    AddsAreMinus(st, d);
    LeftoversExactly(st.routesOwned, d.routes, gone);
    InstallCanonical(map[], st.routesOwned);
    InstallCanonical(t0, x.routesToAdd);
    DeleteAllShrinks(Install(t0, x.routesToAdd), gone);
  }

  lemma AddsAreMinus(st: RuntimeState, d: DesiredState)
    ensures Diff(ActualOf(st), d).routesToAdd == Minus(d.routes, st.routesOwned)
  {
  }

  ghost predicate Leftovers(t: Table, owned: seq<Route>, desired: seq<Route>, gone: seq<Route>) {
    && (forall r <- gone :: r in owned && r !in desired)
    && (forall r <- desired :: Installed(t, r))
    && (forall r <- owned | r !in gone && forall q <- desired :: KeyOf(q) != KeyOf(r) :: Installed(t, r))
    && forall k :: k in t <==> exists r <- owned + desired :: r !in gone && KeyOf(r) == k
  }

  /** A leftover changes where an address goes exactly when it beats the desired routes. */
  lemma LeftoverWinsIff(t: Table, owned: seq<Route>, desired: seq<Route>, gone: seq<Route>, table: nat, ip: Addr)
    requires Canonical(t) && Leftovers(t, owned, desired, gone)
    ensures var w := Lookup(Install(map[], desired), table, ip);
            Lookup(t, table, ip) != w
            <==> exists o <- owned :: o !in gone && o.table == table && Contains(o.destination, ip)
                   && (forall q <- desired :: KeyOf(q) != KeyOf(o)) && (w.None? || !Better(w.value, KeyOf(o)))
  {
    hide Contains, Better, Install, Lookup, Leftovers;
    var t0 := Install(map[], desired);
    forall k ensures k in t0 <==> exists q <- desired :: KeyOf(q) == k { InstallKeys(map[], desired, k); }
    InTable(t, owned, desired, gone);
    ExtraWinsIff(t0, t, table, ip);
    var w := Lookup(t0, table, ip);
    if k :| k in t.Keys - t0.Keys && k.table == table && Contains(k.dest, ip) && (w.None? || !Better(w.value, k)) {
      var o :| o in owned + desired && o !in gone && KeyOf(o) == k;
      TruncSameMembers(o.destination, ip);
    }
    if o :| o in owned && o !in gone && o.table == table && Contains(o.destination, ip)
            && (forall q <- desired :: KeyOf(q) != KeyOf(o)) && (w.None? || !Better(w.value, KeyOf(o)))
    {
      TruncSameMembers(o.destination, ip);
      assert o in owned + desired;
      assert KeyOf(o) in t.Keys - t0.Keys;
    }
  }

  lemma InTable(t: Table, owned: seq<Route>, desired: seq<Route>, gone: seq<Route>)
    requires Leftovers(t, owned, desired, gone)
    ensures forall k :: k in t <==> exists r <- owned + desired :: r !in gone && KeyOf(r) == k
    ensures forall q <- desired :: KeyOf(q) in t
  {
  }

  /** The input: a host that was unreachable gets an interface, and the deletion of its old route
      fails.  Verification passes, the host stays unreachable, and nobody owns the leftover. */
  lemma StaleUnreachableInput(host: Addr, t: Table)
    requires host.fam == V4
    requires var u := Route(HostNet(host), "", None, 52000, Some(50), Unreachable);
             var d := DesiredState([HostRoute(host, 52000)], [RpdbRule(12000, 52000)], [], None, ["eth1"], []);
             Leaves(Install(map[], [u]), t, DEFAULT_STATE.(routesOwned := [u]), d, 1) && KeyOf(u) in t
    ensures var u := Route(HostNet(host), "", None, 52000, Some(50), Unreachable);
            var d := DesiredState([HostRoute(host, 52000)], [RpdbRule(12000, 52000)], [], None, ["eth1"], []);
            var after := Commit(DEFAULT_STATE.(routesOwned := [u]), d, ActiveInterfaces(d));
            && Observed(t, 52000, d.routes)
            && Lookup(t, 52000, host) == Some(KeyOf(u)) && t[KeyOf(u)].rtype == Unreachable
            && u !in after.routesOwned && NothingToDo(after, d)
  {
    var u, r := Route(HostNet(host), "", None, 52000, Some(50), Unreachable), HostRoute(host, 52000);
    var st := DEFAULT_STATE.(routesOwned := [u]);
    var d := DesiredState([r], [RpdbRule(12000, 52000)], [], None, ["eth1"], []);
    hide Leaves, NothingToDo, ActiveInterfaces, HostNet, Trunc, Contains, Install;
    UnreachableApart(host, u, r);
    var gone := CommitLeftovers(Install(map[], [u]), t, st, d, 1);
    StaleEntries(host, t, u, r, gone);
    CommittedIsQuiet(st, d);
  }

  lemma UnreachableApart(host: Addr, u: Route, r: Route)
    requires host.fam == V4 && u == Route(HostNet(host), "", None, 52000, Some(50), Unreachable)
    requires r == HostRoute(host, 52000)
    ensures Synced(Install(map[], [u]), [u]) && Separable([u], [r]) && u != r
    ensures KeyOf(u) == RouteKey(52000, Trunc(HostNet(host)), 0) && HopOf(u).rtype == Unreachable
    ensures KeyOf(r) == RouteKey(52000, Trunc(HostNet(host)), 50) && HopOf(r).rtype == Unicast && HopOf(r).dev != ""
    ensures Contains(Trunc(HostNet(host)), host) && Trunc(HostNet(host)).addr.fam == V4
  {
    hide Contains, Install;
    HostNetHoldsOne(host, host);
    TruncSameMembers(HostNet(host), host);
  }

  lemma StaleEntries(host: Addr, t: Table, u: Route, r: Route, gone: seq<Route>)
    requires Canonical(t) && Leftovers(t, [u], [r], gone) && KeyOf(u) in t
    requires KeyOf(u) == RouteKey(52000, Trunc(HostNet(host)), 0) && HopOf(u).rtype == Unreachable
    requires KeyOf(r) == RouteKey(52000, Trunc(HostNet(host)), 50) && HopOf(r).rtype == Unicast && HopOf(r).dev != ""
    requires Contains(Trunc(HostNet(host)), host) && Trunc(HostNet(host)).addr.fam == V4
    requires Trunc(r.destination) == Trunc(HostNet(host)) && r.routeType == Unicast
    ensures Observed(t, 52000, [r])
    ensures Lookup(t, 52000, host) == Some(KeyOf(u)) && t[KeyOf(u)].rtype == Unreachable
  {
    hide Contains, KeyOf, HopOf, HostNet, Trunc, Canonical;
    assert r in [r] && u in [u] + [r];
    var x :| x in [u] + [r] && x !in gone && KeyOf(x) == KeyOf(u);
    assert x == u;
    forall k | k in t ensures k == KeyOf(u) || k == KeyOf(r) {
      var y :| y in [u] + [r] && y !in gone && KeyOf(y) == k;
    }
    assert Wins(t, 52000, host, KeyOf(u));
    LookupIs(t, 52000, host, KeyOf(u));
    assert KeyOf(r) in t.Keys;
  }

  function HostRoute(host: Addr, table: nat): Route {
    Route(HostNet(host), "eth1", None, table, Some(50), Unicast)
  }

  /** The input: one host in the default table, then the same host in table 53000. */
  lemma TableChangeInput(host: Addr, h0: Snapshot, h1: Snapshot, r: Outcome, log: Log)
    requires var st := DEFAULT_STATE.(routesOwned := [HostRoute(host, 52000)], rulesOwned := [RpdbRule(12000, 52000)]);
             var d := DesiredState([HostRoute(host, 53000)], [RpdbRule(12000, 53000)], [], None, ["eth1"], []);
             && h0.routes == Install(map[], st.routesOwned) && h0.rules == {RpdbRule(12000, 52000)}
             && CleanEnd(h0, h1, st, d, r, log)
    ensures RolledBack(r) && h1.rules == {RpdbRule(12000, 53000)}
    ensures (Consulted(h0, 52000, host) <==> host.fam == V4) && !Consulted(h1, 52000, host)
  {
    hide CleanEnd, Diff;
    var own, new_ := RpdbRule(12000, 52000), RpdbRule(12000, 53000);
    var st := DEFAULT_STATE.(routesOwned := [HostRoute(host, 52000)], rulesOwned := [own]);
    var d := DesiredState([HostRoute(host, 53000)], [new_], [], None, ["eth1"], []);
    HostNetHoldsOne(host, host);
    assert Converging(h0.routes, st, d);
    TableChangeCutsOff(h0, h1, st, d, r, log, d);
    CleanRules(h0, h1, st, d, r, log);
    forall q ensures q in h1.rules <==> q == new_ { RulesAfterMember(h0.rules, st, d, q); }
    assert h1.rules == {new_};
  }

  // ---------------------------------------------------------------- the midpoint of a rollback

  /** What the table covers is what the routes common to both lists cover. */
  ghost predicate CoversCommon(t: Table, owned: seq<Route>, desired: seq<Route>) {
    forall table, ip ::
      Covers(t, table, ip) <==> exists o <- owned :: o in desired && o.table == table && Contains(o.destination, ip)
  }

  /** A rollback after a failed verification passes through, or starts from, a table that covers
      only what the old and the desired routes have in common. */
  lemma VerificationUndoUncovers(h0: Snapshot, h1: Snapshot, st: RuntimeState, d: DesiredState, r: Outcome, log: Log)
    requires CleanEnd(h0, h1, st, d, r, log) && RolledBack(r)
    requires Synced(h0.routes, st.routesOwned) && Consistent(st) && KeysDistinct(d.routes)
    requires Reversible(st.routesOwned, d.routes)
    ensures || CoversCommon(AfterDiff(h0.routes, st, d), st.routesOwned, d.routes)
            || exists s <- log.undo :: CoversCommon(s.routes, st.routesOwned, d.routes)
  {
    hide Contains, Covers, KeysDistinct;
    StaleIsMinus(st, d);
    var mid := DeleteAll(AfterDiff(h0.routes, st, d), Diff(ActualOf(st), d).routesToAdd);
    forall table, ip
      ensures Covers(mid, table, ip)
              <==> exists o <- st.routesOwned :: o in d.routes && o.table == table && Contains(o.destination, ip)
    {
      VerificationGapExactly(st.routesOwned, d.routes, table, ip);
    }
    assert CoversCommon(mid, st.routesOwned, d.routes);
  }

  /** Any rollback whose commands succeed passes through a table in which an address is covered
      exactly if some old route over it was neither overwritten nor already removed. */
  lemma UndoUncoversExactly(t0: Table, st: RuntimeState, d: DesiredState, log: Log) returns (i: nat, t2: Table)
    requires UndoGap(t0, st, d, log)
    requires Synced(t0, st.routesOwned) && Reversible(st.routesOwned, d.routes)
    ensures var x := Diff(ActualOf(st), d);
            && i <= |x.routesToAdd| && Shrunk(Install(t0, x.routesToAdd[..i]), t2, x.routesToRemove)
            && Passes(t2, log.undo, x.routesToAdd)
            && forall table, ip ::
                 Covers(DeleteAll(t2, x.routesToAdd), table, ip)
                 <==> exists o <- st.routesOwned :: o.table == table && Contains(o.destination, ip) && KeyOf(o) in t2
                                                  && Spared(o, x.routesToAdd, i)
  {
    hide Contains, Covers, Passes, Shrunk, DeleteAll, Spared;
    var x := Diff(ActualOf(st), d);
    DiffMembers(st, d);
    t2 :| Undoable(t0, t2, x) && Passes(t2, log.undo, x.routesToAdd);
    i :| 0 <= i <= |x.routesToAdd| && Shrunk(Install(t0, x.routesToAdd[..i]), t2, x.routesToRemove);
    forall table, ip
      ensures Covers(DeleteAll(t2, x.routesToAdd), table, ip)
              <==> exists o <- st.routesOwned :: o.table == table && Contains(o.destination, ip) && KeyOf(o) in t2
                                               && Spared(o, x.routesToAdd, i)
    {
      RollbackGapExactly(st.routesOwned, d.routes, x.routesToAdd, i, x.routesToRemove, t2, table, ip);
    }
  }
}
