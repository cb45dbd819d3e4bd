/** The controller functions that turn one intention into `ip` commands. */
module Netlink {
  import opened Model
  import opened Seqs
  import opened Fib
  import opened Kernel

  /** The policy tables moved, everything else stood still. */
  ghost predicate RoutesOnly(s0: Snapshot, s: Snapshot) {
    s.rules == s0.rules && s.main == s0.main && s.fw == s0.fw
  }

  ghost predicate RulesOnly(s0: Snapshot, s: Snapshot) {
    s.routes == s0.routes && s.main == s0.main && s.fw == s0.fw
  }

  ghost predicate MainOnly(s0: Snapshot, s: Snapshot) {
    s.routes == s0.routes && s.rules == s0.rules && s.fw == s0.fw
  }

  /** `add_route`: refuses a default route, otherwise one replace command. */
  method AddRoute(h: Host, r: Route) returns (ok: bool, ghost steps: seq<Snapshot>)
    modifies h`routes, h`trace, h`failed, h`results
    ensures h.trace == old(h.trace) + steps
    ensures ok ==> h.routes == Replace(old(h.routes), r) && steps == [h.Now()]
    ensures !ok ==> h.routes == old(h.routes) && steps == []
    ensures h.failed >= old(h.failed)
    ensures h.failed == old(h.failed) <==> ok || r.destination.prefix == 0
    ensures h.results == old(h.results) + if r.destination.prefix == 0 then [] else [ok]
  {
    steps, ok := [], false;
    if r.destination.prefix == 0 { return; }
    var o := h.RouteReplace(r);
    ok := o == Success;
    if ok { steps := [h.Now()]; }
  }

  /** `delete_route`: an entry that is already gone counts as deleted. */
  method DeleteRoute(h: Host, r: Route) returns (ok: bool, ghost steps: seq<Snapshot>)
    modifies h`routes, h`trace, h`failed, h`results
    ensures h.trace == old(h.trace) + steps
    ensures ok ==> h.routes == Delete(old(h.routes), r)
    ensures !ok ==> h.routes == old(h.routes)
    ensures steps == [h.Now()] || (steps == [] && h.Now() == old(h.Now()))
    ensures h.failed == old(h.failed) + if ok then 0 else 1
    ensures h.results == old(h.results) + [ok]
  {
    steps := [];
    var o, missing := h.RouteDel(r);
    if o == Success { steps := [h.Now()]; }
    ok := o == Success || missing;
  }

  /** `ensure_rpdb_rule`: a listing that exits with an error reads as empty. */
  method EnsureRpdbRule(h: Host, r: RpdbRule) returns (ok: bool, ghost steps: seq<Snapshot>)
    modifies h`rules, h`trace, h`failed, h`results
    ensures h.trace == old(h.trace) + steps
    ensures old(h.rules) <= h.rules <= old(h.rules) + {r} && (ok ==> r in h.rules)
    ensures forall s <- steps :: s == h.Now()
    ensures h.failed >= old(h.failed) && (!ok ==> h.failed > old(h.failed))
  {
    steps := [];
    var o, listed := h.RuleList();
    if o == SpawnFailure { return false, steps; }
    if r in listed { return true, steps; }
    o := h.RuleAdd(r);
    ok := o == Success;
    if ok { steps := [h.Now()]; }
  }

  /** `remove_rpdb_rule` */
  method RemoveRpdbRule(h: Host, r: RpdbRule) returns (ok: bool, ghost steps: seq<Snapshot>)
    modifies h`rules, h`trace, h`failed, h`results
    ensures h.trace == old(h.trace) + steps
    ensures old(h.rules) - {r} <= h.rules <= old(h.rules)
    ensures h.failed == old(h.failed) ==> h.rules == old(h.rules) - {r}
    ensures forall s <- steps :: s == h.Now()
    ensures h.failed >= old(h.failed)
  {
    steps := [];
    var o, listed := h.RuleList();
    if o == SpawnFailure { return false, steps; }
    if r !in listed { return true, steps; }
    o := h.RuleDel(r);
    ok := o == Success;
    if ok { steps := [h.Now()]; }
  }

  /** `has_default_route_on_interface`: None is an error, a failed listing reads as no route. */
  method HasDefaultRoute(h: Host, dev: string) returns (r: Option<bool>)
    modifies h`failed, h`results
    ensures r == Some(true) ==> HasDefault(h.main, dev)
    ensures h.failed == old(h.failed) ==> r == Some(HasDefault(h.main, dev))
    ensures h.failed >= old(h.failed)
  {
    var o, lines := h.DefaultList(dev);
    if o == SpawnFailure { return None; }
    HasDefaultIff(h.main, dev);
    return Some(lines > 0);
  }

  /** Default routes of other devices are still there. */
  ghost predicate DefaultsKept(m0: MainTable, m: MainTable, but: string) {
    forall k, dev :: dev != but && IsDefaultOn(m0, k, dev) ==> IsDefaultOn(m, k, dev)
  }

  ghost predicate NoNewDefaults(m0: MainTable, m: MainTable) {
    forall k, dev :: IsDefaultOn(m, k, dev) ==> IsDefaultOn(m0, k, dev)
  }

  predicate SameAt(m0: MainTable, m: MainTable, k: MainKey) {
    (k in m <==> k in m0) && (k in m ==> m[k] == m0[k])
  }

  /** Nothing changes but that default routes of these devices disappear. */
  ghost predicate OnlyDefaultsGo(m0: MainTable, m: MainTable, devs: set<string>) {
    forall k :: SameAt(m0, m, k) || (k in m0 && k.dest == DEFAULT_NET && m0[k].dev in devs && k !in m)
  }

  /** The table without the default routes of these devices. */
  function WithoutDefaults(m: MainTable, devs: set<string>): MainTable {
    map k <- m.Keys | !(k.dest == DEFAULT_NET && m[k].dev in devs) :: m[k]
  }

  lemma AllDefaultsGone(m0: MainTable, m: MainTable, dev: string)
    requires OnlyDefaultsGo(m0, m, {dev}) && !HasDefault(m, dev)
    ensures m == WithoutDefaults(m0, {dev})
  {
    forall k ensures k in m <==> k in WithoutDefaults(m0, {dev}) {
      if k in m { assert !IsDefaultOn(m, k, dev); }
      assert SameAt(m0, m, k) || (k in m0 && k.dest == DEFAULT_NET && m0[k].dev in {dev} && k !in m);
    }
    forall k | k in m ensures m[k] == m0[k] { assert SameAt(m0, m, k); }
  }

  lemma OnlyDefaultsGoOn(m0: MainTable, m1: MainTable, m2: MainTable, first: set<string>, second: set<string>,
                         all: set<string>)
    requires OnlyDefaultsGo(m0, m1, first) && OnlyDefaultsGo(m1, m2, second) && first <= all && second <= all
    ensures OnlyDefaultsGo(m0, m2, all)
  {
    forall k ensures SameAt(m0, m2, k) || (k in m0 && k.dest == DEFAULT_NET && m0[k].dev in all && k !in m2) {
      assert SameAt(m0, m1, k) || (k in m0 && k.dest == DEFAULT_NET && m0[k].dev in first && k !in m1);
      assert SameAt(m1, m2, k) || (k in m1 && k.dest == DEFAULT_NET && m1[k].dev in second && k !in m2);
    }
  }

  lemma NoDefaultGone(m: MainTable, dev: string)
    ensures DefaultsKept(m, m, dev) && NoNewDefaults(m, m) && OnlyDefaultsGo(m, m, {dev})
  {
  }

  lemma NextDefaultGone(m0: MainTable, m: MainTable, k: MainKey, dev: string)
    requires DefaultsKept(m0, m, dev) && NoNewDefaults(m0, m) && OnlyDefaultsGo(m0, m, {dev}) && IsDefaultOn(m, k, dev)
    ensures var m' := m - {k};
            && DefaultsKept(m0, m', dev) && NoNewDefaults(m0, m') && OnlyDefaultsGo(m0, m', {dev})
            && DefaultsOn(m', dev) == DefaultsOn(m, dev) - {k} && k in DefaultsOn(m, dev)
  {
    var m' := m - {k};
    assert IsDefaultOn(m0, k, dev);
    forall j, other | IsDefaultOn(m', j, other) ensures IsDefaultOn(m0, j, other) { assert IsDefaultOn(m, j, other); }
    forall j ensures SameAt(m0, m', j) || (j in m0 && j.dest == DEFAULT_NET && m0[j].dev in {dev} && j !in m') {
      assert SameAt(m0, m, j) || (j in m0 && j.dest == DEFAULT_NET && m0[j].dev in {dev} && j !in m);
    }
  }

  /** `remove_default_routes_on_interface`: one deletion per line the listing printed. */
  method RemoveDefaultRoutes(h: Host, dev: string) returns (ok: bool, ghost steps: seq<Snapshot>)
    modifies h`main, h`trace, h`failed, h`results
    ensures h.trace == old(h.trace) + steps
    ensures forall s <- steps + [h.Now()] ::
              MainOnly(old(h.Now()), s) && DefaultsKept(old(h.main), s.main, dev) && NoNewDefaults(old(h.main), s.main)
              && OnlyDefaultsGo(old(h.main), s.main, {dev})
    ensures ok && h.failed == old(h.failed) ==> !HasDefault(h.main, dev)
    ensures h.failed >= old(h.failed) && (!ok ==> h.failed > old(h.failed))
  {
    hide DefaultsKept, NoNewDefaults, OnlyDefaultsGo, HasDefault;
    steps := [];
    NoDefaultGone(h.main, dev);
    var o, lines := h.DefaultList(dev);
    if o == SpawnFailure { return false, steps; }
    if o != Success { return true, steps; }
    for i := 0 to lines
      invariant h.trace == old(h.trace) + steps
      invariant forall s <- steps + [h.Now()] ::
                  MainOnly(old(h.Now()), s) && DefaultsKept(old(h.main), s.main, dev)
                  && NoNewDefaults(old(h.main), s.main) && OnlyDefaultsGo(old(h.main), s.main, {dev})
      invariant |DefaultsOn(h.main, dev)| == lines - i
      invariant h.failed == old(h.failed)
    {
      ghost var before := h.main;
      assert h.Now() in steps + [h.Now()];
      o := h.DefaultDel(dev);
      if o != Success { return false, steps; }
      ghost var k :| IsDefaultOn(before, k, dev) && h.main == before - {k};
      NextDefaultGone(old(h.main), before, k, dev);
      steps := steps + [h.Now()];
    }
    assert DefaultsOn(h.main, dev) == {};
    HasDefaultIff(h.main, dev);
    ok := true;
  }

  /** The metric-50 copy made of one line of the WAN's listing: a default only with its gateway,
      any other entry unless it is printed without a slash. */
  function CopyOf(k: MainKey, hop: MainHop, wan: string): Option<(MainKey, MainHop)> {
    if k.prio == 50 then None
    else if k.dest == DEFAULT_NET then
      if hop.via.Some? then Some((MainKey(DEFAULT_NET, 50), MainHop(wan, hop.via))) else None
    else if k.dest.prefix < 32 then Some((MainKey(k.dest, 50), MainHop(wan, None)))
    else None
  }

  ghost predicate CopiesTo(m: MainTable, wan: string, j: MainKey, k: MainKey, hop: MainHop) {
    j in m && m[j].dev == wan && CopyOf(j, m[j], wan) == Some((k, hop))
  }

  ghost predicate Copied(m: MainTable, wan: string, k: MainKey) {
    exists j, hop :: CopiesTo(m, wan, j, k, hop)
  }

  /** Every key copied to holds a copy, whoever had it before; every other key is as it was. */
  ghost predicate Prioritized(m0: MainTable, m: MainTable, wan: string) {
    forall k :: if Copied(m0, wan, k) then k in m && exists j :: CopiesTo(m0, wan, j, k, m[k]) else SameAt(m0, m, k)
  }

  /** A default route of the device, with a gateway and another metric than 50. */
  predicate GatewayDefault(m: MainTable, wan: string, j: MainKey) {
    j in m && j.dest == DEFAULT_NET && j.prio != 50 && m[j].dev == wan && m[j].via.Some?
  }

  /** A subnet route of the device with another metric than 50. */
  predicate SubnetRoute(m: MainTable, wan: string, j: MainKey) {
    j in m && j.dest != DEFAULT_NET && j.dest.prefix < 32 && j.prio != 50 && m[j].dev == wan
  }

  /** What prioritizing amounts to, key by key: a metric-50 default through a gateway the WAN had,
      a metric-50 copy of each of its subnets without a gateway, and nothing else. */
  lemma PrioritizedExactly(m0: MainTable, m: MainTable, wan: string)
    requires Prioritized(m0, m, wan)
    ensures var k := MainKey(DEFAULT_NET, 50);
            if exists j :: GatewayDefault(m0, wan, j)
            then k in m && m[k].dev == wan && exists j :: GatewayDefault(m0, wan, j) && m[k].via == m0[j].via
            else SameAt(m0, m, k)
    ensures forall j | SubnetRoute(m0, wan, j) ::
              MainKey(j.dest, 50) in m && m[MainKey(j.dest, 50)] == MainHop(wan, None)
    ensures forall k: MainKey | k != MainKey(DEFAULT_NET, 50) && !SubnetCopied(m0, wan, k) :: SameAt(m0, m, k)
  {
    hide Prioritized, SameAt;
    DefaultCopy(m0, m, wan);
    forall j | SubnetRoute(m0, wan, j)
      ensures MainKey(j.dest, 50) in m && m[MainKey(j.dest, 50)] == MainHop(wan, None)
    {
      SubnetCopy(m0, m, wan, MainKey(j.dest, 50));
    }
    forall k: MainKey | k != MainKey(DEFAULT_NET, 50) && !SubnetCopied(m0, wan, k) ensures SameAt(m0, m, k) {
      SubnetCopy(m0, m, wan, k);
    }
  }

  predicate SubnetCopied(m: MainTable, wan: string, k: MainKey) {
    k.prio == 50 && exists j <- m :: SubnetRoute(m, wan, j) && j.dest == k.dest
  }

  lemma DefaultCopy(m0: MainTable, m: MainTable, wan: string)
    requires Prioritized(m0, m, wan)
    ensures var k := MainKey(DEFAULT_NET, 50);
            if exists j :: GatewayDefault(m0, wan, j)
            then k in m && m[k].dev == wan && exists j :: GatewayDefault(m0, wan, j) && m[k].via == m0[j].via
            else SameAt(m0, m, k)
  {
    hide SameAt;
    var k := MainKey(DEFAULT_NET, 50);
    if j :| GatewayDefault(m0, wan, j) {
      assert CopiesTo(m0, wan, j, k, MainHop(wan, m0[j].via));
      var i :| CopiesTo(m0, wan, i, k, m[k]);
      assert GatewayDefault(m0, wan, i) && m[k].via == m0[i].via;
    } else if j, hop :| CopiesTo(m0, wan, j, k, hop) {
      assert GatewayDefault(m0, wan, j);
    }
  }

  lemma SubnetCopy(m0: MainTable, m: MainTable, wan: string, k: MainKey)
    requires Prioritized(m0, m, wan) && k != MainKey(DEFAULT_NET, 50)
    ensures if SubnetCopied(m0, wan, k) then k in m && m[k] == MainHop(wan, None) else SameAt(m0, m, k)
  {
    hide SameAt;
    if SubnetCopied(m0, wan, k) {
      var j :| j in m0 && SubnetRoute(m0, wan, j) && j.dest == k.dest;
      assert CopiesTo(m0, wan, j, k, MainHop(wan, None)) && Copied(m0, wan, k);
      var i :| CopiesTo(m0, wan, i, k, m[k]);
    } else {
      forall j, hop ensures !CopiesTo(m0, wan, j, k, hop) { }
    }
  }

  /** The table without the metric-50 entries of these devices. */
  function Restored(m: MainTable, devs: set<string>): MainTable {
    map k <- m.Keys | !(k.prio == 50 && m[k].dev in devs) :: m[k]
  }

  /** Restoring keeps a device its default exactly if it has one with another metric. */
  lemma RestoreKeepsDefaultIff(m: MainTable, devs: set<string>, dev: string)
    ensures HasDefault(Restored(m, devs), dev)
            <==> exists k <- m.Keys :: IsDefaultOn(m, k, dev) && (dev !in devs || k.prio != 50)
  {
    var r := Restored(m, devs);
    if k :| k in m.Keys && IsDefaultOn(m, k, dev) && (dev !in devs || k.prio != 50) {
      assert k in r.Keys && IsDefaultOn(r, k, dev);
    }
    if k :| k in r.Keys && IsDefaultOn(r, k, dev) {
      assert IsDefaultOn(m, k, dev);
    }
  }

  /** Round trip: restoring undoes prioritizing if and only if no metric-50 entry was the WAN's
      own or made way for a copy; and either way the WAN is left with a default exactly if it
      had one with another metric. */
  lemma RestoreUndoesExactly(m0: MainTable, m1: MainTable, wan: string)
    requires Prioritized(m0, m1, wan)
    ensures Restored(m1, {wan}) == m0 <==> forall k <- m0 :: k.prio == 50 ==> m0[k].dev != wan && !Copied(m0, wan, k)
    ensures HasDefault(Restored(m1, {wan}), wan) <==> exists k <- m0.Keys :: IsDefaultOn(m0, k, wan) && k.prio != 50
  {
    hide Copied, Restored, HasDefault;
    AfterRoundTrip(m0, m1, wan);
    DefaultAfterRoundTrip(m0, m1, wan);
    var m2 := Restored(m1, {wan});
    if forall k <- m0 :: k.prio == 50 ==> m0[k].dev != wan && !Copied(m0, wan, k) {
      forall k: MainKey ensures SameAt(m0, m2, k) { assert RoundTrip(m0, m2, wan, k); }
      SameEverywhere(m0, m2);
    } else {
      var k :| k in m0 && k.prio == 50 && !(m0[k].dev != wan && !Copied(m0, wan, k));
      assert RoundTrip(m0, m2, wan, k);
    }
  }

  lemma SameEverywhere(m0: MainTable, m: MainTable)
    requires forall k :: SameAt(m0, m, k)
    ensures m == m0
  {
    forall k ensures k in m.Keys <==> k in m0.Keys { assert SameAt(m0, m, k); }
    forall k | k in m ensures m[k] == m0[k] { assert SameAt(m0, m, k); }
  }

  /** What is left at one key after prioritizing and restoring. */
  ghost predicate RoundTrip(m0: MainTable, m2: MainTable, wan: string, k: MainKey) {
    if k.prio == 50 && (Copied(m0, wan, k) || (k in m0 && m0[k].dev == wan)) then k !in m2 else SameAt(m0, m2, k)
  }

  lemma AfterRoundTrip(m0: MainTable, m1: MainTable, wan: string)
    requires Prioritized(m0, m1, wan)
    ensures forall k :: RoundTrip(m0, Restored(m1, {wan}), wan, k)
  {
    forall k ensures RoundTrip(m0, Restored(m1, {wan}), wan, k) {
      if Copied(m0, wan, k) {
        var j :| CopiesTo(m0, wan, j, k, m1[k]);
      } else {
        assert SameAt(m0, m1, k);
      }
    }
  }

  lemma DefaultAfterRoundTrip(m0: MainTable, m1: MainTable, wan: string)
    requires Prioritized(m0, m1, wan)
    ensures HasDefault(Restored(m1, {wan}), wan) <==> exists k <- m0.Keys :: IsDefaultOn(m0, k, wan) && k.prio != 50
  {
    hide Restored;
    RestoreKeepsDefaultIff(m1, {wan}, wan);
    if k :| k in m1.Keys && IsDefaultOn(m1, k, wan) && k.prio != 50 {
      assert !Copied(m0, wan, k) && SameAt(m0, m1, k);
      assert k in m0.Keys && IsDefaultOn(m0, k, wan);
    }
    if k :| k in m0.Keys && IsDefaultOn(m0, k, wan) && k.prio != 50 {
      assert !Copied(m0, wan, k) && SameAt(m0, m1, k);
      assert k in m1.Keys && IsDefaultOn(m1, k, wan);
    }
  }

  /** The copies of the first lines are in place. */
  ghost predicate CopiesMade(m0: MainTable, m: MainTable, lines: seq<(MainKey, MainHop)>, wan: string) {
    forall k :: if exists l <- lines, hop :: CopyOf(l.0, l.1, wan) == Some((k, hop))
                then k in m && exists l <- lines :: CopyOf(l.0, l.1, wan) == Some((k, m[k]))
                else SameAt(m0, m, k)
  }

  lemma NextCopy(m0: MainTable, m: MainTable, lines: seq<(MainKey, MainHop)>, i: nat, wan: string, m': MainTable)
    requires i < |lines| && CopiesMade(m0, m, lines[..i], wan)
    requires m' == match CopyOf(lines[i].0, lines[i].1, wan) case Some(c) => m[c.0 := c.1] case None => m
    ensures CopiesMade(m0, m', lines[..i + 1], wan)
  {
    hide CopyOf;
    assert lines[..i + 1] == lines[..i] + [lines[i]];
    forall k
      ensures if exists l <- lines[..i + 1], hop :: CopyOf(l.0, l.1, wan) == Some((k, hop))
              then k in m' && exists l <- lines[..i + 1] :: CopyOf(l.0, l.1, wan) == Some((k, m'[k]))
              else SameAt(m0, m', k)
    {
      var c := CopyOf(lines[i].0, lines[i].1, wan);
      if c.Some? && c.value.0 == k {
        assert lines[i] in lines[..i + 1] && c == Some((k, m'[k]));
      } else if exists l <- lines[..i], hop :: CopyOf(l.0, l.1, wan) == Some((k, hop)) {
        var l :| l in lines[..i] && CopyOf(l.0, l.1, wan) == Some((k, m[k]));
        assert l in lines[..i + 1];
      }
    }
  }

  lemma AllCopiesMade(m0: MainTable, m: MainTable, lines: seq<(MainKey, MainHop)>, wan: string)
    requires forall l <- lines :: l.0 in m0 && m0[l.0] == l.1 && l.1.dev == wan
    requires forall k <- m0 :: m0[k].dev == wan ==> (k, m0[k]) in lines
    requires CopiesMade(m0, m, lines, wan)
    ensures Prioritized(m0, m, wan)
  {
    hide CopyOf;
    forall k
      ensures if Copied(m0, wan, k) then k in m && exists j :: CopiesTo(m0, wan, j, k, m[k]) else SameAt(m0, m, k)
    {
      if Copied(m0, wan, k) {
        var j, hop :| CopiesTo(m0, wan, j, k, hop);
        assert (j, m0[j]) in lines && CopyOf((j, m0[j]).0, (j, m0[j]).1, wan) == Some((k, hop));
        var l :| l in lines && CopyOf(l.0, l.1, wan) == Some((k, m[k]));
        assert CopiesTo(m0, wan, l.0, k, m[k]);
      } else if l, hop :| l in lines && CopyOf(l.0, l.1, wan) == Some((k, hop)) {
        assert CopiesTo(m0, wan, l.0, k, hop);
      }
    }
  }

  /** `prioritize_wan_interface`: copies of the interface's routes with metric 50. */
  method PrioritizeWan(h: Host, wan: string) returns (ok: bool, ghost steps: seq<Snapshot>)
    modifies h`main, h`trace, h`failed, h`results
    ensures h.trace == old(h.trace) + steps
    ensures forall s <- steps + [h.Now()] ::
              MainOnly(old(h.Now()), s) && (HasDefault(old(h.main), wan) ==> HasDefault(s.main, wan))
    ensures h.failed == old(h.failed) ==> Prioritized(old(h.main), h.main, wan)
    ensures h.failed >= old(h.failed) && (!ok ==> h.failed > old(h.failed))
  {
    hide Prioritized, CopiesMade;
    steps := [];
    var o, lines := h.MainList(wan);
    if o == SpawnFailure { return false, steps; }
    ghost var listed := h.failed;
    NoCopies(h.main, wan);
    FullSlice(lines);
    for i := 0 to |lines|
      invariant h.trace == old(h.trace) + steps
      invariant forall s <- steps + [h.Now()] ::
                  MainOnly(old(h.Now()), s) && (HasDefault(old(h.main), wan) ==> HasDefault(s.main, wan))
      invariant CopiesMade(old(h.main), h.main, lines[..i], wan)
      invariant h.failed >= listed >= old(h.failed)
    {
      var k, hop := lines[i].0, lines[i].1;
      ghost var before := h.main;
      if k.prio == 50 {
        NextCopy(old(h.main), before, lines, i, wan, h.main);
        continue;
      }
      assert h.Now() in steps + [h.Now()];
      if k.dest == DEFAULT_NET {
        if hop.via.Some? {
          o := h.MainReplace(MainKey(DEFAULT_NET, 50), MainHop(wan, hop.via));
          if o != Success { return false, steps; }
          assert IsDefaultOn(h.main, MainKey(DEFAULT_NET, 50), wan);
          steps := steps + [h.Now()];
        }
      } else if k.dest.prefix < 32 {
        o := h.MainReplace(MainKey(k.dest, 50), MainHop(wan, None));
        if o != Success { return false, steps; }
        if d :| d in before.Keys && IsDefaultOn(before, d, wan) {
          assert IsDefaultOn(h.main, d, wan);
        }
        steps := steps + [h.Now()];
      }
      NextCopy(old(h.main), before, lines, i, wan, h.main);
    }
    if h.failed == old(h.failed) { AllCopiesMade(old(h.main), h.main, lines, wan); }
    ok := true;
  }

  lemma NoCopies(m: MainTable, wan: string)
    ensures CopiesMade(m, m, [], wan)
  {
  }

  /** `restore_wan_interface`: deletes the metric-50 entries, ignoring failures. */
  method RestoreWan(h: Host, wan: string) returns (ghost steps: seq<Snapshot>)
    modifies h`main, h`trace, h`failed, h`results
    ensures h.trace == old(h.trace) + steps
    ensures forall s <- steps + [h.Now()] :: MainOnly(old(h.Now()), s)
    ensures h.failed == old(h.failed) ==> h.main == Restored(old(h.main), {wan})
    ensures h.failed >= old(h.failed)
  {
    steps := [];
    var o, lines := h.MainList(wan);
    ghost var listed := h.failed;
    FullSlice(lines);
    for i := 0 to |lines|
      invariant h.trace == old(h.trace) + steps
      invariant forall s <- steps + [h.Now()] :: MainOnly(old(h.Now()), s)
      invariant h.failed >= listed >= old(h.failed)
      invariant h.failed == old(h.failed) ==>
                  h.main == old(h.main) - set l <- lines[..i] | l.0.prio == 50 :: l.0
    {
      var k := lines[i].0;
      assert lines[..i + 1] == lines[..i] + [lines[i]];
      if k.prio == 50 {
        assert h.Now() in steps + [h.Now()];
        o := h.MainDel(k);
        if o == Success { steps := steps + [h.Now()]; }
      }
    }
    if h.failed == old(h.failed) {
      forall k | k in old(h.main) && old(h.main)[k].dev == wan && k.prio == 50 ensures k !in h.main {
        assert (k, old(h.main)[k]) in lines;
      }
    }
  }
}
