/** Adds, then removes, then perhaps a rollback, on the routing table alone: what every
    intermediate table covers, when the result is the desired one, and what an undo restores. */
module Transaction {
  import opened Net
  import opened Model
  import opened Seqs
  import opened Fib

  /** `ip route del` for one route of the list never matches the entry of another.  Coverage
      during the forward run needs this. */
  ghost predicate Identified(rs: seq<Route>) {
    forall a, b :: a in rs && b in rs && DeleteMatches(a, KeyOf(b), HopOf(b)) ==> a == b
  }

  /** `ip route del` for one route of the list never matches an entry under another key; routes
      that differ in their gateway alone qualify.  This is enough for an exact rollback. */
  ghost predicate Keyed(rs: seq<Route>) {
    forall a, b :: a in rs && b in rs && DeleteMatches(a, KeyOf(b), HopOf(b)) ==> KeyOf(a) == KeyOf(b)
  }

  lemma IdentifiedIsKeyed(rs: seq<Route>)
    ensures Identified(rs) ==> Keyed(rs)
  {
  }

  lemma MatchIsSameKey(owned: seq<Route>, desired: seq<Route>, a: Route, b: Route)
    requires Keyed(owned + desired)
    requires (a in owned || a in desired) && (b in owned || b in desired)
    requires DeleteMatches(a, KeyOf(b), HopOf(b))
    ensures KeyOf(a) == KeyOf(b)
  {
    assert a in owned + desired && b in owned + desired;
  }

  ghost predicate Hit(rs: seq<Route>, k: RouteKey, h: NextHop) {
    exists r <- rs :: DeleteMatches(r, k, h)
  }

  /** `t` is `t0` after some of the deletions of `rs`, each of which may have failed. */
  ghost predicate Shrunk(t0: Table, t: Table, rs: seq<Route>) {
    && t.Keys <= t0.Keys
    && (forall k <- t :: t[k] == t0[k])
    && (forall k <- t0 | !Hit(rs, k, t0[k]) :: k in t)
  }

  /** Every entry belongs to a route of the list. */
  ghost predicate OwnedBy(t: Table, rs: seq<Route>) {
    forall k <- t :: exists r <- rs :: KeyOf(r) == k && HopOf(r) == t[k]
  }

  ghost predicate CoveredBy(rs: seq<Route>, table: nat, ip: Addr) {
    exists r <- rs :: r.table == table && Contains(r.destination, ip)
  }

  lemma MatchIsSame(owned: seq<Route>, desired: seq<Route>, a: Route, b: Route)
    requires Identified(owned + desired)
    requires (a in owned || a in desired) && (b in owned || b in desired)
    requires DeleteMatches(a, KeyOf(b), HopOf(b))
    ensures a == b
  {
    assert a in owned + desired && b in owned + desired;
  }

  lemma OwnMatch(r: Route)
    ensures DeleteMatches(r, KeyOf(r), HopOf(r))
  {
  }

  lemma ShrunkStep(t0: Table, t: Table, rs: seq<Route>, r: Route)
    requires Shrunk(t0, t, rs) && r in rs
    ensures Shrunk(t0, Delete(t, r), rs)
  {
    var t' := Delete(t, r);
    forall k | k in t0 && !Hit(rs, k, t0[k]) ensures k in t' {
      assert k in t;
      assert !DeleteMatches(r, k, t0[k]);
    }
  }

  lemma ShrunkMore(t0: Table, t: Table, some: seq<Route>, all: seq<Route>)
    requires Shrunk(t0, t, some) && forall r <- some :: r in all
    ensures Shrunk(t0, t, all)
  {
    forall k | k in t0 && !Hit(all, k, t0[k]) ensures k in t {
      assert !Hit(some, k, t0[k]);
    }
  }

  lemma {:induction false} DeleteAllShrinks(t: Table, rs: seq<Route>)
    ensures Shrunk(t, DeleteAll(t, rs), rs)
  {
    if rs != [] {
      var init, last := rs[..|rs| - 1], rs[|rs| - 1];
      DeleteAllShrinks(t, init);
      assert forall r <- init :: r in rs;
      ShrunkMore(t, DeleteAll(t, init), init, rs);
      ShrunkStep(t, DeleteAll(t, init), rs, last);
    }
  }

  lemma {:induction false} InstallOwned(t: Table, olds: seq<Route>, rs: seq<Route>)
    requires OwnedBy(t, olds)
    ensures OwnedBy(Install(t, rs), olds + rs)
  {
    forall k | k in Install(t, rs)
      ensures exists r <- olds + rs :: KeyOf(r) == k && HopOf(r) == Install(t, rs)[k]
    {
      var own := InstallOrigin(t, rs, k);
      if own.Some? {
        assert own.value in olds + rs;
      } else {
        var r :| r in olds && KeyOf(r) == k && HopOf(r) == t[k];
        assert r in olds + rs;
      }
    }
  }

  lemma RunOwned(owned: seq<Route>, added: seq<Route>)
    ensures OwnedBy(Install(Install(map[], owned), added), owned + added)
  {
    InstallOwned(map[], [], owned);
    assert [] + owned == owned;
    InstallOwned(Install(map[], owned), owned, added);
  }

  /** How many of the commands failed. */
  function Misses(oks: seq<bool>): nat {
    if oks == [] then 0 else Misses(oks[..|oks| - 1]) + if oks[|oks| - 1] then 0 else 1
  }

  lemma MissesStep(oks: seq<bool>, ok: bool)
    ensures Misses(oks + [ok]) == Misses(oks) + if ok then 0 else 1
  {
    assert (oks + [ok])[..|oks|] == oks;
  }

  /** The routes whose command succeeded. */
  function Succeeded(rs: seq<Route>, oks: seq<bool>): seq<Route>
    requires |oks| == |rs|
  {
    if rs == [] then []
    else Succeeded(rs[..|rs| - 1], oks[..|rs| - 1]) + if oks[|rs| - 1] then [rs[|rs| - 1]] else []
  }

  lemma {:induction false} SucceededMember(rs: seq<Route>, oks: seq<bool>, r: Route)
    requires |oks| == |rs|
    ensures r in Succeeded(rs, oks) <==> exists i :: 0 <= i < |rs| && rs[i] == r && oks[i]
  {
    if rs != [] {
      var init, some := rs[..|rs| - 1], oks[..|rs| - 1];
      SucceededMember(init, some, r);
      if i :| 0 <= i < |rs| && rs[i] == r && oks[i] {
        if i < |init| { assert init[i] == r && some[i]; }
      }
    }
  }

  lemma {:induction false} SucceededCount(rs: seq<Route>, oks: seq<bool>)
    requires |oks| == |rs|
    ensures |Succeeded(rs, oks)| + Misses(oks) == |rs|
  {
    if rs != [] { SucceededCount(rs[..|rs| - 1], oks[..|rs| - 1]); }
  }

  lemma {:induction false} AllSucceeded(rs: seq<Route>, oks: seq<bool>)
    requires |oks| == |rs| && forall i :: 0 <= i < |oks| ==> oks[i]
    ensures Succeeded(rs, oks) == rs
  {
    if rs != [] {
      AllSucceeded(rs[..|rs| - 1], oks[..|rs| - 1]);
      assert rs == rs[..|rs| - 1] + [rs[|rs| - 1]];
    }
  }

  // ---------------------------------------------------------------- make before break

  /** While adding, nothing that was covered is uncovered. */
  lemma AddsKeepCoverage(owned: seq<Route>, toAdd: seq<Route>, i: nat, table: nat, ip: Addr)
    requires i <= |toAdd| && CoveredBy(owned, table, ip)
    ensures Covers(Install(Install(map[], owned), toAdd[..i]), table, ip)
  {
    FreshCoversIff(owned, table, ip);
    InstallCovers(Install(map[], owned), toAdd[..i], table, ip);
  }

  /** After the adds every desired route is installed, whether it was owned before or not. */
  lemma AllDesiredInstalled(owned: seq<Route>, desired: seq<Route>, r: Route)
    requires KeysDistinct(owned) && KeysDistinct(desired) && r in desired
    ensures Installed(Install(Install(map[], owned), Minus(desired, owned)), r)
  {
    var toAdd := Minus(desired, owned);
    MinusMember(desired, owned, r);
    if r in toAdd {
      MinusKeysDistinct(desired, owned);
      InstallKeepsAll(Install(map[], owned), toAdd, r);
    } else {
      InstallKeepsAll(map[], owned, r);
      InstallKeys(Install(map[], owned), toAdd, KeyOf(r));
      var own := InstallOrigin(Install(map[], owned), toAdd, KeyOf(r));
      if own.Some? {
        MinusMember(desired, owned, own.value);
        SameKeySameRoute(desired, r, own.value);
      }
    }
  }

  lemma SameKeySameRoute(rs: seq<Route>, a: Route, b: Route)
    requires KeysDistinct(rs) && a in rs && b in rs && KeyOf(a) == KeyOf(b)
    ensures a == b
  {
    var i :| 0 <= i < |rs| && rs[i] == a;
    var j :| 0 <= j < |rs| && rs[j] == b;
  }

  lemma {:induction false} MinusKeysDistinct(xs: seq<Route>, ys: seq<Route>)
    requires KeysDistinct(xs)
    ensures KeysDistinct(Minus(xs, ys))
  {
    if xs != [] {
      var init, last := xs[..|xs| - 1], xs[|xs| - 1];
      MinusKeysDistinct(init, ys);
      forall i | 0 <= i < |Minus(init, ys)| ensures KeyOf(Minus(init, ys)[i]) != KeyOf(last) {
        MinusMember(init, ys, Minus(init, ys)[i]);
        var j :| 0 <= j < |init| && init[j] == Minus(init, ys)[i];
        assert xs[j] == init[j];
      }
      assert Minus(xs, ys) == Minus(init, ys) + if last in ys then [] else [last];
    }
  }

  /** While removing, every desired route stays installed, so everything it covers stays
      covered. */
  lemma RemovesKeepDesired(owned: seq<Route>, desired: seq<Route>, toRemove: seq<Route>, t: Table)
    requires KeysDistinct(owned) && KeysDistinct(desired) && Identified(owned + desired)
    requires forall r <- toRemove :: r in owned && r !in desired
    requires Shrunk(Install(Install(map[], owned), Minus(desired, owned)), t, toRemove)
    ensures forall r <- desired :: Installed(t, r)
  {
    forall r | r in desired ensures Installed(t, r) {
      AllDesiredInstalled(owned, desired, r);
      if Hit(toRemove, KeyOf(r), HopOf(r)) {
        var o :| o in toRemove && DeleteMatches(o, KeyOf(r), HopOf(r));
        MatchIsSame(owned, desired, o, r);
      }
    }
  }

  /** After the adds and some of the removals the table holds the desired routes and the owned
      routes that were not removed, and nothing else. */
  lemma LeftoversExactly(owned: seq<Route>, desired: seq<Route>, gone: seq<Route>)
    requires KeysDistinct(owned) && KeysDistinct(desired) && Identified(owned + desired)
    requires forall r <- gone :: r in owned && r !in desired
    ensures var t := DeleteAll(Install(Install(map[], owned), Minus(desired, owned)), gone);
            && (forall r <- desired :: Installed(t, r))
            && (forall r <- owned | r !in gone && forall q <- desired :: KeyOf(q) != KeyOf(r) :: Installed(t, r))
            && forall k :: k in t <==> exists r <- owned + desired :: r !in gone && KeyOf(r) == k
  {
    hide KeyOf, HopOf, DeleteMatches, KeysDistinct, Identified, Install, DeleteAll, Minus;
    var t1 := Install(Install(map[], owned), Minus(desired, owned));
    var t := DeleteAll(t1, gone);
    DeleteAllShrinks(t1, gone);
    RemovesKeepDesired(owned, desired, gone, t);
    forall r | r in owned && r !in gone && forall q <- desired :: KeyOf(q) != KeyOf(r) ensures Installed(t, r) {
      OwnedSurvives(owned, desired, gone, r);
    }
    forall k ensures k in t <==> exists r <- owned + desired :: r !in gone && KeyOf(r) == k {
      if k in t {
        var r := LeftoverOrigin(owned, desired, gone, k);
      }
      if r :| r in owned + desired && r !in gone && KeyOf(r) == k {
        if q :| q in desired && KeyOf(q) == k { assert Installed(t, q); } else { assert Installed(t, r); }
      }
    }
  }

  lemma OwnedSurvives(owned: seq<Route>, desired: seq<Route>, gone: seq<Route>, r: Route)
    requires KeysDistinct(owned) && Identified(owned + desired) && r in owned && r !in gone
    requires (forall o <- gone :: o in owned) && forall q <- desired :: KeyOf(q) != KeyOf(r)
    ensures Installed(DeleteAll(Install(Install(map[], owned), Minus(desired, owned)), gone), r)
  {
    var t1 := Install(Install(map[], owned), Minus(desired, owned));
    InstallKeepsAll(map[], owned, r);
    InstallKeys(Install(map[], owned), Minus(desired, owned), KeyOf(r));
    var own := InstallOrigin(Install(map[], owned), Minus(desired, owned), KeyOf(r));
    if own.Some? { MinusMember(desired, owned, own.value); }
    DeleteAllShrinks(t1, gone);
    if Hit(gone, KeyOf(r), HopOf(r)) {
      var o :| o in gone && DeleteMatches(o, KeyOf(r), HopOf(r));
      MatchIsSame(owned, desired, o, r);
    }
  }

  lemma LeftoverOrigin(owned: seq<Route>, desired: seq<Route>, gone: seq<Route>, k: RouteKey) returns (r: Route)
    requires Identified(owned + desired) && forall o <- gone :: o in owned
    requires k in DeleteAll(Install(Install(map[], owned), Minus(desired, owned)), gone)
    ensures r in owned + desired && r !in gone && KeyOf(r) == k
  {
    hide DeleteMatches, KeyOf, HopOf;
    var toAdd := Minus(desired, owned);
    var t1 := Install(Install(map[], owned), toAdd);
    DeleteAllShrinks(t1, gone);
    RunOwned(owned, toAdd);
    r :| r in owned + toAdd && KeyOf(r) == k && HopOf(r) == t1[k];
    if r in toAdd { MinusMember(desired, owned, r); }
    if r in gone {
      OwnMatch(r);
      forall j | j in t1 && DeleteMatches(r, j, t1[j]) ensures j == k {
        var q :| q in owned + toAdd && KeyOf(q) == j && HopOf(q) == t1[j];
        if q in toAdd { MinusMember(desired, owned, q); }
        MatchIsSame(owned, desired, r, q);
      }
      UndoDeletes(t1, gone, r, k);
    }
  }

  lemma InstalledCovers(t: Table, rs: seq<Route>, table: nat, ip: Addr)
    requires forall r <- rs :: Installed(t, r)
    requires CoveredBy(rs, table, ip)
    ensures Covers(t, table, ip)
  {
    var r :| r in rs && r.table == table && Contains(r.destination, ip);
    TruncSameMembers(r.destination, ip);
    assert KeyOf(r) in t.Keys;
  }

  // ---------------------------------------------------------------- rollback

  lemma {:induction false} InstallInPlace(t: Table, rs: seq<Route>)
    requires forall r <- rs :: Installed(t, r)
    ensures Install(t, rs) == t
  {
    if rs != [] {
      var init, last := rs[..|rs| - 1], rs[|rs| - 1];
      assert rs == init + [last];
      InstallInPlace(t, init);
      assert last in rs;
    }
  }

  /** Deleting the added routes leaves only entries of the old ones. */
  lemma {:induction false} UndoDeletes(t: Table, rs: seq<Route>, r: Route, k: RouteKey)
    requires r in rs && k in t && DeleteMatches(r, k, t[k])
    requires forall j <- t | DeleteMatches(r, j, t[j]) :: j == k
    ensures k !in DeleteAll(t, rs)
  {
    var init, last := rs[..|rs| - 1], rs[|rs| - 1];
    assert rs == init + [last];
    DeleteAllShrinks(t, init);
    var t' := DeleteAll(t, init);
    if r in init {
      UndoDeletes(t, init, r, k);
    } else if k in t' {
      assert forall j <- t' | DeleteMatches(r, j, t'[j]) :: j == k;
      assert Victim(t', r, k);
    }
  }

  /** Rollback is an inverse: from the table of the old routes, after any number of adds and
      any of the removals, deleting the added routes and re-adding the old ones restores
      exactly the old table. */
  lemma RollbackRestores(owned: seq<Route>, desired: seq<Route>, toAdd: seq<Route>, i: nat,
                         toRemove: seq<Route>, t2: Table)
    requires KeysDistinct(owned) && Keyed(owned + desired)
    requires i <= |toAdd| && (forall r <- toAdd :: r in desired && r !in owned)
    requires Shrunk(Install(Install(map[], owned), toAdd[..i]), t2, toRemove)
    ensures Install(DeleteAll(t2, toAdd), owned) == Install(map[], owned)
  {
    hide DeleteMatches, Keyed;
    var t3 := DeleteAll(t2, toAdd);
    RunOwned(owned, toAdd[..i]);
    forall k | k in t3 ensures exists o <- owned :: KeyOf(o) == k {
      AddedKeysGone(owned, desired, toAdd, i, t2, k);
    }
    ReAddRestores(t3, owned);
  }

  /** Over leftovers of the old routes, re-adding them all rebuilds their table. */
  lemma ReAddRestores(t: Table, owned: seq<Route>)
    requires KeysDistinct(owned)
    requires forall k <- t :: exists o <- owned :: KeyOf(o) == k
    ensures Install(t, owned) == Install(map[], owned)
  {
    hide KeyOf, HopOf, KeysDistinct;
    var t4, t0 := Install(t, owned), Install(map[], owned);
    forall k ensures k in t4 <==> k in t0 {
      InstallKeys(t, owned, k);
      InstallKeys(map[], owned, k);
    }
    forall k | k in t0 ensures t4[k] == t0[k] {
      var own := InstallOrigin(map[], owned, k);
      InstallKeepsAll(t, owned, own.value);
    }
  }

  /** What is left after the deletions of a rollback: old entries under keys no added route took. */
  lemma AddedKeysGone(owned: seq<Route>, desired: seq<Route>, toAdd: seq<Route>, i: nat, t2: Table, k: RouteKey)
    requires Keyed(owned + desired)
    requires i <= |toAdd| && (forall r <- toAdd :: r in desired && r !in owned)
    requires OwnedBy(Install(Install(map[], owned), toAdd[..i]), owned + toAdd[..i])
    requires t2.Keys <= Install(Install(map[], owned), toAdd[..i]).Keys
    requires forall j <- t2 :: t2[j] == Install(Install(map[], owned), toAdd[..i])[j]
    requires k in DeleteAll(t2, toAdd)
    ensures k in t2 && (forall a <- toAdd[..i] :: KeyOf(a) != k)
    ensures exists o <- owned :: KeyOf(o) == k && HopOf(o) == t2[k]
    ensures forall a <- toAdd :: !DeleteMatches(a, k, t2[k])
  {
    hide DeleteMatches;
    DeleteAllShrinks(t2, toAdd);
    assert k in t2;
    forall a | a in toAdd ensures !DeleteMatches(a, k, t2[k]) {
      if DeleteMatches(a, k, t2[k]) {
        MatchedKeyGone(owned, desired, toAdd, i, t2, a, k);
        assert false;
      }
    }
    forall a | a in toAdd[..i] ensures !DeleteMatches(a, k, t2[k]) { assert a in toAdd; }
    var own := InstallOrigin(Install(map[], owned), toAdd[..i], k);
    if own.Some? { OwnMatch(own.value); }
    var r :| r in owned + toAdd[..i] && KeyOf(r) == k && HopOf(r) == t2[k];
  }

  lemma MatchedKeyGone(owned: seq<Route>, desired: seq<Route>, toAdd: seq<Route>, i: nat, t2: Table, a: Route,
                       k: RouteKey)
    requires Keyed(owned + desired)
    requires i <= |toAdd| && (forall r <- toAdd :: r in desired && r !in owned)
    requires OwnedBy(Install(Install(map[], owned), toAdd[..i]), owned + toAdd[..i])
    requires forall j <- t2 :: j in Install(Install(map[], owned), toAdd[..i])
                               && t2[j] == Install(Install(map[], owned), toAdd[..i])[j]
    requires a in toAdd && k in t2 && DeleteMatches(a, k, t2[k])
    ensures k !in DeleteAll(t2, toAdd)
  {
    hide DeleteMatches;
    forall j | j in t2 && DeleteMatches(a, j, t2[j]) ensures j == KeyOf(a) {
      var x :| x in owned + toAdd[..i] && KeyOf(x) == j && HopOf(x) == t2[j];
      assert x in owned || x in toAdd;
      MatchIsSameKey(owned, desired, a, x);
    }
    UndoDeletes(t2, toAdd, a, k);
  }

  /** The rollback is not make-before-break.  Between its deletions and its re-additions,
      wherever the run stopped, an address of the old routes is covered exactly when some old
      route over it was neither overwritten nor removed nor is deleted by name. */
  lemma RollbackGapExactly(owned: seq<Route>, desired: seq<Route>, toAdd: seq<Route>, i: nat,
                           toRemove: seq<Route>, t2: Table, table: nat, ip: Addr)
    requires KeysDistinct(owned) && Keyed(owned + desired)
    requires i <= |toAdd| && (forall r <- toAdd :: r in desired && r !in owned)
    requires Shrunk(Install(Install(map[], owned), toAdd[..i]), t2, toRemove)
    ensures Covers(DeleteAll(t2, toAdd), table, ip)
            <==> exists o <- owned :: o.table == table && Contains(o.destination, ip) && KeyOf(o) in t2
                                     && Spared(o, toAdd, i)
  {
    hide Contains, DeleteMatches, Keyed, KeysDistinct, Spared, Install;
    var t1 := Install(Install(map[], owned), toAdd[..i]);
    var t3 := DeleteAll(t2, toAdd);
    if k :| k in t3.Keys && k.table == table && Contains(k.dest, ip) {
      var o := LeftoverIsSpared(owned, desired, toAdd, i, t1, t2, k);
      TruncSameMembers(o.destination, ip);
    }
    if o :| o in owned && o.table == table && Contains(o.destination, ip) && KeyOf(o) in t2 && Spared(o, toAdd, i) {
      SurvivesUndo(owned, toAdd, i, t2, o);
      TruncSameMembers(o.destination, ip);
      assert KeyOf(o) in t3.Keys;
    }
  }

  lemma LeftoverIsSpared(owned: seq<Route>, desired: seq<Route>, toAdd: seq<Route>, i: nat, t1: Table, t2: Table,
                         k: RouteKey)
    returns (o: Route)
    requires Keyed(owned + desired)
    requires i <= |toAdd| && (forall r <- toAdd :: r in desired && r !in owned)
    requires t1 == Install(Install(map[], owned), toAdd[..i])
    requires t2.Keys <= t1.Keys && forall j <- t2 :: t2[j] == t1[j]
    requires k in DeleteAll(t2, toAdd)
    ensures o in owned && KeyOf(o) == k && k in t2 && Spared(o, toAdd, i)
  {
    hide Contains, DeleteMatches, Keyed, Install, OwnedBy, KeyOf, HopOf;
    RunOwned(owned, toAdd[..i]);
    AddedKeysGone(owned, desired, toAdd, i, t2, k);
    o :| o in owned && KeyOf(o) == k && HopOf(o) == t2[k];
  }

  /** No route added so far took its key, and no route to add names its entry when deleted. */
  ghost predicate Spared(o: Route, toAdd: seq<Route>, i: nat)
    requires i <= |toAdd|
  {
    (forall a <- toAdd[..i] :: KeyOf(a) != KeyOf(o)) && (forall a <- toAdd :: !DeleteMatches(a, KeyOf(o), HopOf(o)))
  }

  lemma SurvivesUndo(owned: seq<Route>, toAdd: seq<Route>, i: nat, t2: Table, o: Route)
    requires KeysDistinct(owned) && i <= |toAdd| && o in owned && Spared(o, toAdd, i)
    requires KeyOf(o) in t2 && forall k <- t2 :: k in Install(Install(map[], owned), toAdd[..i])
                                 && t2[k] == Install(Install(map[], owned), toAdd[..i])[k]
    ensures KeyOf(o) in DeleteAll(t2, toAdd)
  {
    OldHopStays(owned, toAdd, i, o);
    DeleteAllShrinks(t2, toAdd);
  }

  lemma OldHopStays(owned: seq<Route>, toAdd: seq<Route>, i: nat, o: Route)
    requires KeysDistinct(owned) && i <= |toAdd|
    requires o in owned && forall a <- toAdd[..i] :: KeyOf(a) != KeyOf(o)
    ensures Installed(Install(Install(map[], owned), toAdd[..i]), o)
  {
    InstallKeepsAll(map[], owned, o);
    InstallKeys(Install(map[], owned), toAdd[..i], KeyOf(o));
    var own := InstallOrigin(Install(map[], owned), toAdd[..i], KeyOf(o));
  }

  /** At verification the removals are done too: what the midpoint of that rollback covers is
      exactly what the routes common to both policies cover. */
  lemma VerificationGapExactly(owned: seq<Route>, desired: seq<Route>, table: nat, ip: Addr)
    requires KeysDistinct(owned) && KeysDistinct(desired) && Keyed(owned + desired)
    ensures var t2 := DeleteAll(Install(Install(map[], owned), Minus(desired, owned)), Minus(owned, desired));
            Covers(DeleteAll(t2, Minus(desired, owned)), table, ip)
            <==> exists o <- owned :: o in desired && o.table == table && Contains(o.destination, ip)
  {
    hide Contains, Keyed, KeysDistinct, Shrunk, Minus, Spared;
    var toAdd, toRemove := Minus(desired, owned), Minus(owned, desired);
    var t1 := Install(Install(map[], owned), toAdd);
    FullSlice(toAdd);
    DeleteAllShrinks(t1, toRemove);
    forall r | r in toAdd ensures r in desired && r !in owned { MinusMember(desired, owned, r); }
    RollbackGapExactly(owned, desired, toAdd, |toAdd|, toRemove, DeleteAll(t1, toRemove), table, ip);
    forall o | o in owned
      ensures KeyOf(o) in DeleteAll(t1, toRemove) && Spared(o, toAdd, |toAdd|) <==> o in desired
    {
      KeptExactly(owned, desired, o);
    }
  }

  lemma KeptExactly(owned: seq<Route>, desired: seq<Route>, o: Route)
    requires KeysDistinct(owned) && KeysDistinct(desired) && Keyed(owned + desired) && o in owned
    ensures var toAdd, toRemove := Minus(desired, owned), Minus(owned, desired);
            KeyOf(o) in DeleteAll(Install(Install(map[], owned), toAdd), toRemove) && Spared(o, toAdd, |toAdd|)
            <==> o in desired
  {
    hide Contains, DeleteMatches, KeysDistinct, Keyed, Minus;
    var toAdd, toRemove := Minus(desired, owned), Minus(owned, desired);
    var t1 := Install(Install(map[], owned), toAdd);
    FullSlice(toAdd);
    DeleteAllShrinks(t1, toRemove);
    forall r ensures r in toAdd <==> r in desired && r !in owned { MinusMember(desired, owned, r); }
    forall r ensures r in toRemove <==> r in owned && r !in desired { MinusMember(owned, desired, r); }
    if o in desired {
      CommonStays(owned, desired, o, toAdd, toRemove);
    } else if Spared(o, toAdd, |toAdd|) {
      OldHopStays(owned, toAdd, |toAdd|, o);
      OwnMatch(o);
      RunOwned(owned, toAdd);
      forall j | j in t1 && DeleteMatches(o, j, t1[j]) ensures j == KeyOf(o) {
        var x :| x in owned + toAdd && KeyOf(x) == j && HopOf(x) == t1[j];
        MatchIsSameKey(owned, desired, o, x);
      }
      UndoDeletes(t1, toRemove, o, KeyOf(o));
    }
  }

  /** A common route is neither overwritten nor named by any deletion of the run. */
  lemma CommonStays(owned: seq<Route>, desired: seq<Route>, o: Route, toAdd: seq<Route>, toRemove: seq<Route>)
    requires KeysDistinct(owned) && KeysDistinct(desired) && Keyed(owned + desired) && o in owned && o in desired
    requires forall r :: r in toAdd <==> r in desired && r !in owned
    requires forall r :: r in toRemove <==> r in owned && r !in desired
    ensures Spared(o, toAdd, |toAdd|) && KeyOf(o) in DeleteAll(Install(Install(map[], owned), toAdd), toRemove)
  {
    hide DeleteMatches, KeysDistinct, Keyed;
    var t1 := Install(Install(map[], owned), toAdd);
    FullSlice(toAdd);
    forall a | a in toAdd ensures KeyOf(a) != KeyOf(o) && !DeleteMatches(a, KeyOf(o), HopOf(o)) {
      if DeleteMatches(a, KeyOf(o), HopOf(o)) { MatchIsSameKey(owned, desired, a, o); }
      if KeyOf(a) == KeyOf(o) { SameKeySameRoute(desired, a, o); }
    }
    OldHopStays(owned, toAdd, |toAdd|, o);
    DeleteAllShrinks(t1, toRemove);
    if Hit(toRemove, KeyOf(o), HopOf(o)) {
      var r :| r in toRemove && DeleteMatches(r, KeyOf(o), HopOf(o));
      MatchIsSameKey(owned, desired, r, o);
      SameKeySameRoute(owned, r, o);
      assert false;
    }
  }

  /** After a rollback from any table whatever, every old route is in the kernel, and the rest
      was there when the rollback began. */
  lemma RollbackFromAnywhere(t2: Table, toAdd: seq<Route>, owned: seq<Route>)
    requires KeysDistinct(owned)
    ensures var t := Install(DeleteAll(t2, toAdd), owned);
            && (forall o <- owned :: Installed(t, o))
            && (forall k <- t :: (exists o <- owned :: KeyOf(o) == k && HopOf(o) == t[k]) || (k in t2 && t[k] == t2[k]))
            && (forall k <- t2 | !Hit(toAdd, k, t2[k]) :: k in t)
  {
    hide DeleteMatches, Hit, KeyOf, HopOf, KeysDistinct;
    var t3 := DeleteAll(t2, toAdd);
    var t := Install(t3, owned);
    DeleteAllShrinks(t2, toAdd);
    forall o | o in owned ensures Installed(t, o) { InstallKeepsAll(t3, owned, o); }
    forall k | k in t ensures (exists o <- owned :: KeyOf(o) == k && HopOf(o) == t[k]) || (k in t2 && t[k] == t2[k]) {
      var own := InstallOrigin(t3, owned, k);
    }
    forall k | k in t2 && !Hit(toAdd, k, t2[k]) ensures k in t { InstallKeys(t3, owned, k); }
  }
}
