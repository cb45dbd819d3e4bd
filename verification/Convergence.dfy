/** When adds followed by removes end with the desired routes installed: the exact condition,
    and three families of changes that can never be committed. */
module Convergence {
  import opened Net
  import opened Model
  import opened Seqs
  import opened Fib
  import opened Kernel
  import opened Transaction

  /** What a deletion names: table, destination, type, and the device of a unicast route. */
  predicate SameSlot(a: Route, b: Route) {
    && a.table == b.table && Trunc(a.destination) == Trunc(b.destination) && a.routeType == b.routeType
    && (a.routeType == Unicast ==> a.outputInterface == b.outputInterface)
  }

  ghost predicate NamedDevices(rs: seq<Route>) {
    forall r <- rs :: r.routeType == Unicast ==> r.outputInterface != ""
  }

  ghost predicate SlotsDistinct(rs: seq<Route>) {
    forall a, b :: a in rs && b in rs && SameSlot(a, b) ==> a == b
  }

  /** Both sides keep one route per slot and one per kernel key. */
  ghost predicate Tidy(rs: seq<Route>) {
    NamedDevices(rs) && SlotsDistinct(rs) && KeysDistinct(rs)
  }

  /** A removed route shares its slot with an added one that the kernel would pick first. */
  ghost predicate Clobbers(owned: seq<Route>, desired: seq<Route>) {
    exists o, d :: o in owned && o !in desired && d in desired && d !in owned && SameSlot(o, d)
      && (KeyOf(d).prio < KeyOf(o).prio || exists a <- desired :: a !in owned && KeyOf(a) == KeyOf(o))
  }

  /** The table after all adds and all removes succeeded. */
  ghost function Applied(owned: seq<Route>, desired: seq<Route>): Table {
    DeleteAll(Added(owned, desired), Minus(owned, desired))
  }

  ghost function Added(owned: seq<Route>, desired: seq<Route>): Table {
    Install(Install(map[], owned), Minus(desired, owned))
  }

  lemma MatchIsSlot(a: Route, b: Route)
    requires a.routeType == Unicast ==> a.outputInterface != ""
    ensures DeleteMatches(a, KeyOf(b), HopOf(b)) <==> SameSlot(a, b)
  {
  }

  ghost predicate DisjointHits(t: Table, rs: seq<Route>) {
    forall k, a, b :: k in t && a in rs && b in rs && DeleteMatches(a, k, t[k]) && DeleteMatches(b, k, t[k]) ==> a == b
  }

  ghost predicate NoRepeats(rs: seq<Route>) {
    forall i, j :: 0 <= i < j < |rs| ==> rs[i] != rs[j]
  }

  /** The last deletion finds its entries as they were before the earlier ones. */
  lemma LastVictim(t: Table, init: seq<Route>, last: Route, k: RouteKey)
    requires DisjointHits(t, init + [last]) && last !in init
    ensures Victim(DeleteAll(t, init), last, k) <==> Victim(t, last, k)
  {
    hide DeleteMatches;
    DeleteAllShrinks(t, init);
    var t' := DeleteAll(t, init);
    assert last in init + [last] && forall a <- init :: a in init + [last];
    forall j | j in t && DeleteMatches(last, j, t[j]) ensures j in t' {
      assert !Hit(init, j, t[j]);
    }
  }

  /** With disjoint targets, deletions do not influence each other. */
  lemma {:induction false} DeleteAllExact(t: Table, rs: seq<Route>, k: RouteKey)
    requires DisjointHits(t, rs) && NoRepeats(rs) && k in t
    ensures k in DeleteAll(t, rs) <==> forall r <- rs :: !Victim(t, r, k)
  {
    hide DeleteMatches, Victim;
    if rs != [] {
      var init, last := rs[..|rs| - 1], rs[|rs| - 1];
      assert rs == init + [last];
      assert last !in init;
      DisjointHitsPrefix(t, init, last);
      DeleteAllExact(t, init, k);
      var t' := DeleteAll(t, init);
      forall j { LastVictim(t, init, last, j); }
      if v :| Victim(t', last, v) {
        DeleteIsVictim(t', last, v);
        VictimUnique(t', last, v, k);
      }
    }
  }

  lemma DisjointHitsPrefix(t: Table, init: seq<Route>, last: Route)
    requires DisjointHits(t, init + [last])
    ensures DisjointHits(t, init)
  {
    assert forall r <- init :: r in init + [last];
  }

  lemma VictimUnique(t: Table, r: Route, v: RouteKey, k: RouteKey)
    requires Victim(t, r, v)
    ensures Victim(t, r, k) <==> k == v
  {
  }

  lemma {:induction false} MinusNoRepeats(xs: seq<Route>, ys: seq<Route>)
    requires KeysDistinct(xs)
    ensures NoRepeats(Minus(xs, ys))
  {
    MinusKeysDistinct(xs, ys);
  }

  lemma AddedEntry(owned: seq<Route>, desired: seq<Route>, k: RouteKey) returns (x: Route)
    requires k in Added(owned, desired)
    ensures x in owned || (x in desired && x !in owned)
    ensures KeyOf(x) == k && HopOf(x) == Added(owned, desired)[k]
    ensures x in owned ==> forall a <- desired :: a !in owned ==> KeyOf(a) != k
  {
    var toAdd := Minus(desired, owned);
    var own := InstallOrigin(Install(map[], owned), toAdd, k);
    if own.Some? {
      x := own.value;
      MinusMember(desired, owned, x);
    } else {
      var o := InstallOrigin(map[], owned, k);
      x := o.value;
      forall a | a in desired && a !in owned ensures KeyOf(a) != k {
        MinusMember(desired, owned, a);
      }
    }
  }

  lemma RemovalsDisjoint(owned: seq<Route>, desired: seq<Route>)
    requires Tidy(owned)
    ensures DisjointHits(Added(owned, desired), Minus(owned, desired))
  {
    var t, rs := Added(owned, desired), Minus(owned, desired);
    forall k, a, b | k in t && a in rs && b in rs && DeleteMatches(a, k, t[k]) && DeleteMatches(b, k, t[k])
      ensures a == b
    {
      MinusMember(owned, desired, a);
      MinusMember(owned, desired, b);
      var x := AddedEntry(owned, desired, k);
      MatchIsSlot(a, x);
      MatchIsSlot(b, x);
    }
  }

  /** The entry of a desired route falls victim to the removal of `o` exactly in the clobbering
      situation. */
  lemma VictimIff(owned: seq<Route>, desired: seq<Route>, o: Route, d: Route)
    requires Tidy(owned) && Tidy(desired)
    requires o in owned && o !in desired && d in desired
    ensures Victim(Added(owned, desired), o, KeyOf(d))
            <==> && SameSlot(o, d) && d !in owned
                 && (KeyOf(d).prio < KeyOf(o).prio || exists a <- desired :: a !in owned && KeyOf(a) == KeyOf(o))
  {
    hide Trunc;
    var t := Added(owned, desired);
    AllDesiredInstalled(owned, desired, d);
    MatchIsSlot(o, d);
    forall j | j in t && DeleteMatches(o, j, t[j]) && SameSlot(o, d)
      ensures j == KeyOf(d) || (j == KeyOf(o) && forall a <- desired :: a !in owned ==> KeyOf(a) != j)
    {
      var x := AddedEntry(owned, desired, j);
      MatchIsSlot(o, x);
    }
    if SameSlot(o, d) && forall a <- desired :: a !in owned ==> KeyOf(a) != KeyOf(o) {
      OwnEntryStays(owned, desired, o);
      OwnMatch(o);
    }
  }

  lemma OwnEntryStays(owned: seq<Route>, desired: seq<Route>, o: Route)
    requires KeysDistinct(owned) && o in owned
    requires forall a <- desired :: a !in owned ==> KeyOf(a) != KeyOf(o)
    ensures Installed(Added(owned, desired), o)
  {
    InstallKeepsAll(map[], owned, o);
    InstallKeys(Install(map[], owned), Minus(desired, owned), KeyOf(o));
    var own := InstallOrigin(Install(map[], owned), Minus(desired, owned), KeyOf(o));
    if own.Some? { MinusMember(desired, owned, own.value); }
  }

  lemma DesiredSurvivesIff(owned: seq<Route>, desired: seq<Route>, d: Route)
    requires Tidy(owned) && Tidy(desired) && d in desired
    ensures Installed(Applied(owned, desired), d)
            <==> forall o <- owned :: o !in desired ==> !Victim(Added(owned, desired), o, KeyOf(d))
  {
    hide Victim, Tidy;
    assert KeysDistinct(owned) && KeysDistinct(desired) by { TidyKeys(owned); TidyKeys(desired); }
    var t, rs := Added(owned, desired), Minus(owned, desired);
    AllDesiredInstalled(owned, desired, d);
    RemovalsDisjoint(owned, desired);
    MinusNoRepeats(owned, desired);
    DeleteAllExact(t, rs, KeyOf(d));
    DeleteAllShrinks(t, rs);
    forall o ensures o in rs <==> o in owned && o !in desired { MinusMember(owned, desired, o); }
  }

  lemma TidyKeys(rs: seq<Route>)
    requires Tidy(rs)
    ensures KeysDistinct(rs)
  {
  }

  /** Exactness of apply: when every command succeeds, all desired routes end up installed if
      and only if no removal clobbers an addition. */
  lemma ApplyExact(owned: seq<Route>, desired: seq<Route>)
    requires Tidy(owned) && Tidy(desired)
    ensures (forall d <- desired :: Installed(Applied(owned, desired), d)) <==> !Clobbers(owned, desired)
  {
    hide Installed, Victim, Tidy;
    if !Clobbers(owned, desired) {
      forall d | d in desired ensures Installed(Applied(owned, desired), d) {
        forall o | o in owned && o !in desired ensures !Victim(Added(owned, desired), o, KeyOf(d)) {
          VictimIff(owned, desired, o, d);
        }
        DesiredSurvivesIff(owned, desired, d);
      }
    } else {
      var o, d :| o in owned && o !in desired && d in desired && d !in owned && SameSlot(o, d)
        && (KeyOf(d).prio < KeyOf(o).prio || exists a <- desired :: a !in owned && KeyOf(a) == KeyOf(o));
      VictimIff(owned, desired, o, d);
      DesiredSurvivesIff(owned, desired, d);
    }
  }

  /** And then the table holds nothing else: it is the table of the desired routes. */
  lemma ApplyReachesDesired(owned: seq<Route>, desired: seq<Route>)
    requires Tidy(owned) && Tidy(desired) && !Clobbers(owned, desired)
    ensures Applied(owned, desired) == Install(map[], desired)
  {
    ApplyExact(owned, desired);
    var t2, goal := Applied(owned, desired), Install(map[], desired);
    forall k | k in t2 ensures k in goal && goal[k] == t2[k] {
      var x := SurvivorIsDesired(owned, desired, k);
      InstallKeepsAll(map[], desired, x);
    }
    forall k | k in goal ensures k in t2 {
      var own := InstallOrigin(map[], desired, k);
      assert Installed(t2, own.value);
    }
  }

  lemma SurvivorIsDesired(owned: seq<Route>, desired: seq<Route>, k: RouteKey) returns (x: Route)
    requires Tidy(owned) && Tidy(desired) && !Clobbers(owned, desired)
    requires k in Applied(owned, desired)
    ensures x in desired && KeyOf(x) == k && HopOf(x) == Applied(owned, desired)[k]
  {
    var t, rs := Added(owned, desired), Minus(owned, desired);
    DeleteAllShrinks(t, rs);
    x := AddedEntry(owned, desired, k);
    if x !in desired {
      MinusMember(owned, desired, x);
      RemovalsDisjoint(owned, desired);
      MinusNoRepeats(owned, desired);
      DeleteAllExact(t, rs, k);
      OwnMatch(x);
      forall j | j in t && DeleteMatches(x, j, t[j]) ensures k.prio <= j.prio {
        var y := AddedEntry(owned, desired, j);
        MatchIsSlot(x, y);
      }
      assert Victim(t, x, k);
      assert false;
    }
  }

  /** Routes that deletion tells apart are tidy when devices are named, and never clobber. */
  lemma IdentifiedNeverClobbers(owned: seq<Route>, desired: seq<Route>)
    requires Identified(owned + desired) && NamedDevices(owned + desired)
    ensures !Clobbers(owned, desired)
    ensures KeysDistinct(owned) ==> Tidy(owned)
    ensures KeysDistinct(desired) ==> Tidy(desired)
  {
    forall a, b | (a in owned || a in desired) && (b in owned || b in desired) && SameSlot(a, b) ensures a == b {
      assert a in owned + desired && b in owned + desired;
      MatchIsSlot(a, b);
    }
    forall r | r in owned || r in desired ensures r.routeType == Unicast ==> r.outputInterface != "" {
      assert r in owned + desired;
    }
  }

  // ---------------------------------------------------------------- what cannot be committed

  /** The verification step: each desired destination and type is listed. */
  predicate Observed(t: Table, table: nat, desired: seq<Route>) {
    forall d <- desired :: (Trunc(d.destination), d.routeType) in Listing(t, table)
  }

  lemma ListedEntry(t: Table, table: nat, dest: Cidr, ty: RouteType) returns (k: RouteKey)
    requires (dest, ty) in Listing(t, table)
    ensures k in t && k.table == table && k.dest == dest && dest.addr.fam == V4 && t[k].rtype == ty
  {
    k :| k in t.Keys && k.table == table && k.dest.addr.fam == V4 && k.dest == dest && t[k].rtype == ty;
  }

  /** Some entry of that destination and type is in the table after the adds, and no removal
      hits it. */
  ghost predicate LeftListed(owned: seq<Route>, desired: seq<Route>, table: nat, dest: Cidr, ty: RouteType) {
    exists k <- Added(owned, desired).Keys ::
      && k.table == table && k.dest == dest && Added(owned, desired)[k].rtype == ty
      && forall o <- owned | o !in desired :: !Victim(Added(owned, desired), o, k)
  }

  /** When verification passes, clobbering or not: exactly if every desired route is IPv4 and
      something with its destination and type is left, which may be a stale entry. */
  lemma ObservedExactly(owned: seq<Route>, desired: seq<Route>, table: nat)
    requires Tidy(owned) && Tidy(desired)
    ensures Observed(Applied(owned, desired), table, desired)
            <==> forall d <- desired :: d.destination.addr.fam == V4
                                        && LeftListed(owned, desired, table, Trunc(d.destination), d.routeType)
  {
    hide Victim, Tidy, Trunc, Applied, Added;
    forall d | d in desired
      ensures (Trunc(d.destination), d.routeType) in Listing(Applied(owned, desired), table)
              <==> d.destination.addr.fam == V4
                   && LeftListed(owned, desired, table, Trunc(d.destination), d.routeType)
    {
      TruncFamily(d.destination);
      ListedExactly(owned, desired, table, Trunc(d.destination), d.routeType);
    }
  }

  lemma TruncFamily(c: Cidr)
    ensures Trunc(c).addr.fam == c.addr.fam
  {
  }

  lemma ListedExactly(owned: seq<Route>, desired: seq<Route>, table: nat, dest: Cidr, ty: RouteType)
    requires Tidy(owned) && Tidy(desired)
    ensures (dest, ty) in Listing(Applied(owned, desired), table)
            <==> dest.addr.fam == V4 && LeftListed(owned, desired, table, dest, ty)
  {
    hide Victim, Tidy, Trunc, KeysDistinct, SlotsDistinct, Added;
    var t := Added(owned, desired);
    DeleteAllShrinks(t, Minus(owned, desired));
    if (dest, ty) in Listing(Applied(owned, desired), table) {
      var k := ListedEntry(Applied(owned, desired), table, dest, ty);
      SurvivesExactly(owned, desired, k);
    }
    if dest.addr.fam == V4 && LeftListed(owned, desired, table, dest, ty) {
      var k :| k in t.Keys && k.table == table && k.dest == dest && t[k].rtype == ty
               && forall o <- owned | o !in desired :: !Victim(t, o, k);
      SurvivesExactly(owned, desired, k);
      EntryNamed(owned, desired, k);
      assert k in Applied(owned, desired).Keys;
    }
  }

  lemma SurvivesExactly(owned: seq<Route>, desired: seq<Route>, k: RouteKey)
    requires Tidy(owned) && Tidy(desired) && k in Added(owned, desired)
    ensures k in Applied(owned, desired) <==> forall o <- owned | o !in desired :: !Victim(Added(owned, desired), o, k)
  {
    hide Victim, Tidy;
    TidyKeys(owned);
    RemovalsDisjoint(owned, desired);
    MinusNoRepeats(owned, desired);
    DeleteAllExact(Added(owned, desired), Minus(owned, desired), k);
    forall o ensures o in Minus(owned, desired) <==> o in owned && o !in desired { MinusMember(owned, desired, o); }
  }

  lemma EntryNamed(owned: seq<Route>, desired: seq<Route>, k: RouteKey)
    requires Tidy(owned) && Tidy(desired) && k in Added(owned, desired)
    ensures Added(owned, desired)[k].rtype == Unicast ==> Added(owned, desired)[k].dev != ""
  {
    var x := AddedEntry(owned, desired, k);
  }

  lemma MinusOne(x: Route, y: Route)
    requires x != y
    ensures Minus([x], [y]) == [x]
  {
    var f := (r: Route) => if r in [y] then [] else [r];
    FlatMapStep([x], f, 0);
    assert [x][..1] == [x] && [x][..0] == [];
    assert f(x) == [x];
  }

  lemma SingleRoute(t: Table, r: Route)
    ensures Install(t, []) == t && Install(t, [r]) == Replace(t, r) && DeleteAll(t, [r]) == Delete(t, r)
  {
    assert [r][..0] == [];
  }

  /** The input: a change of metric alone to a better one.  The removal names the new entry, the
      old one stays, and verification is content with it. */
  lemma MetricChangeLeavesStale(o: Route)
    requires o.routeType == Unicast && o.outputInterface != "" && o.destination.addr.fam == V4 && o.metric == Some(100)
    ensures var d := o.(metric := Some(50));
            && Observed(Applied([o], [d]), o.table, [d])
            && Installed(Applied([o], [d]), o) && !Installed(Applied([o], [d]), d)
  {
    hide Trunc, Install, DeleteAll, Delete, Minus, Contains;
    var d := o.(metric := Some(50));
    MinusOne(d, o);
    MinusOne(o, d);
    SingleRoute(map[], o);
    SingleRoute(Install(map[], [o]), d);
    SingleRoute(Added([o], [d]), o);
    BetterMetricDeleted(o, d, Added([o], [d]));
    TruncFamily(o.destination);
    var t2 := Applied([o], [d]);
    assert KeyOf(o) in t2.Keys && t2[KeyOf(o)] == HopOf(o);
    assert (KeyOf(o).dest, Unicast) in Listing(t2, o.table);
  }

  lemma BetterMetricDeleted(o: Route, d: Route, t: Table)
    requires o.routeType == Unicast && o.outputInterface != "" && o.metric == Some(100) && d == o.(metric := Some(50))
    requires t == map[KeyOf(o) := HopOf(o)][KeyOf(d) := HopOf(d)]
    ensures Delete(t, o) == map[KeyOf(o) := HopOf(o)] && KeyOf(o) != KeyOf(d)
  {
    hide Trunc, Delete;
    assert Victim(t, o, KeyOf(d));
    DeleteIsVictim(t, o, KeyOf(d));
    assert t - {KeyOf(d)} == map[KeyOf(o) := HopOf(o)];
  }

  /** An IPv6 route is never observed, whatever the kernel holds. */
  lemma Ipv6NeverObserved(t: Table, table: nat, desired: seq<Route>, d: Route)
    requires d in desired && d.destination.addr.fam == V6
    ensures !Observed(t, table, desired)
  {
    if (Trunc(d.destination), d.routeType) in Listing(t, table) {
      var k := ListedEntry(t, table, Trunc(d.destination), d.routeType);
    }
  }

  /** A route whose gateway alone changed is added by overwriting and then removed: a change
      of gateway on a route with no twin of its destination and type is never observed. */
  lemma GatewayChangeNeverObserved(owned: seq<Route>, desired: seq<Route>, o: Route, gateway: Option<Addr>, table: nat)
    requires Tidy(owned) && Tidy(desired)
    requires o in owned && o !in desired && o.routeType == Unicast && gateway != o.gateway
    requires o.(gateway := gateway) in desired && o.(gateway := gateway) !in owned
    requires forall r | (r in owned || r in desired) && Trunc(r.destination) == Trunc(o.destination)
                        && r.routeType == Unicast :: r == o || r == o.(gateway := gateway)
    ensures Clobbers(owned, desired)
    ensures !Observed(Applied(owned, desired), table, desired)
    ensures KeyOf(o) !in Applied(owned, desired)
  {
    var d := o.(gateway := gateway);
    assert SameSlot(o, d) && KeyOf(d) == KeyOf(o) by { assert d.destination == o.destination; }
    VictimIff(owned, desired, o, d);
    DesiredSurvivesIff(owned, desired, d);
    var t2 := Applied(owned, desired);
    DeleteAllShrinks(Added(owned, desired), Minus(owned, desired));
    AllDesiredInstalled(owned, desired, d);
    if (Trunc(d.destination), Unicast) in Listing(t2, table) {
      var k := ListedEntry(t2, table, Trunc(d.destination), Unicast);
      var x := AddedEntry(owned, desired, k);
      assert false;
    }
  }

  /** When the table identifier changes, verification still lists the old table, which the
      removals have just emptied: no such change with a route in it is ever observed. */
  lemma TableChangeNeverObserved(owned: seq<Route>, desired: seq<Route>, table: nat)
    requires Tidy(owned) && Tidy(desired) && !Clobbers(owned, desired)
    requires desired != [] && forall d <- desired :: d.table != table
    ensures !Observed(Applied(owned, desired), table, desired)
  {
    var t2 := Applied(owned, desired);
    var d := desired[0];
    if (Trunc(d.destination), d.routeType) in Listing(t2, table) {
      var k := ListedEntry(t2, table, Trunc(d.destination), d.routeType);
      var x := SurvivorIsDesired(owned, desired, k);
      assert false;
    }
  }
}
