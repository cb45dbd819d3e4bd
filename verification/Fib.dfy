/** The kernel's forwarding tables as the `ip route` commands of the tool see them.

    `ip route replace` is keyed by table, truncated destination and metric.  `ip route del`
    names only table, destination and either the type or the device, and removes the best
    matching entry.  Lookup is longest prefix first, then least metric (RFC 4632 section 5.1,
    RFC 1812 section 5.2.4.3). */
module Fib {
  import opened Net
  import opened Model

  datatype RouteKey = RouteKey(table: nat, dest: Cidr, prio: nat)

  datatype NextHop = NextHop(rtype: RouteType, dev: string, gateway: Option<Addr>)

  type Table = map<RouteKey, NextHop>

  /** What the kernel stores for a metric: without one, IPv4 stores 0 and IPv6 stores 1024. */
  function KernelPrio(f: Family, metric: Option<nat>): nat {
    match metric
    case Some(m) => if f == V6 && m == 0 then 1024 else m
    case None => if f == V4 then 0 else 1024
  }

  /** Unreachable and blackhole routes are added without their metric. */
  function KeyOf(r: Route): RouteKey {
    RouteKey(r.table, Trunc(r.destination),
             KernelPrio(r.destination.addr.fam, if r.routeType == Unicast then r.metric else None))
  }

  function HopOf(r: Route): NextHop {
    if r.routeType == Unicast then NextHop(Unicast, r.outputInterface, r.gateway)
    else NextHop(r.routeType, "", None)
  }

  function Replace(t: Table, r: Route): Table {
    t[KeyOf(r) := HopOf(r)]
  }

  /** Entries that `ip route del` for `r` may remove. */
  predicate DeleteMatches(r: Route, k: RouteKey, h: NextHop) {
    && k.table == r.table
    && k.dest == Trunc(r.destination)
    && match r.routeType
       case Unicast => r.outputInterface == "" || h.dev == r.outputInterface
       case other => h.rtype == other
  }

  /** The entry the kernel picks: the matching one of least metric. */
  predicate Victim(t: Table, r: Route, k: RouteKey) {
    && k in t.Keys && DeleteMatches(r, k, t[k])
    && forall j <- t.Keys | DeleteMatches(r, j, t[j]) :: k.prio <= j.prio
  }

  ghost function Delete(t: Table, r: Route): (t': Table)
    ensures t'.Keys <= t.Keys && forall k <- t' :: t'[k] == t[k]
    ensures forall k <- t | !DeleteMatches(r, k, t[k]) :: k in t'
  {
    if k :| Victim(t, r, k) then t - {k} else t
  }

  ghost function Install(t: Table, rs: seq<Route>): Table {
    if rs == [] then t else Replace(Install(t, rs[..|rs| - 1]), rs[|rs| - 1])
  }

  ghost function DeleteAll(t: Table, rs: seq<Route>): Table {
    if rs == [] then t else Delete(DeleteAll(t, rs[..|rs| - 1]), rs[|rs| - 1])
  }

  /** Destinations are stored truncated. */
  ghost predicate Canonical(t: Table) {
    forall k <- t :: Trunc(k.dest) == k.dest
  }

  predicate Covers(t: Table, table: nat, ip: Addr) {
    exists k <- t.Keys :: k.table == table && Contains(k.dest, ip)
  }

  predicate Better(a: RouteKey, b: RouteKey) {
    a.dest.prefix > b.dest.prefix || (a.dest.prefix == b.dest.prefix && a.prio <= b.prio)
  }

  /** `k` answers the lookup of `ip` in table `table`. */
  ghost predicate Wins(t: Table, table: nat, ip: Addr, k: RouteKey) {
    && k in t && k.table == table && Contains(k.dest, ip)
    && forall j <- t | j.table == table && Contains(j.dest, ip) :: Better(k, j)
  }

  /** Longest-prefix-match lookup; None falls through to the next routing rule. */
  ghost function Lookup(t: Table, table: nat, ip: Addr): (w: Option<RouteKey>)
    ensures w.Some? ==> Wins(t, table, ip, w.value)
    ensures w.None? <==> !Covers(t, table, ip)
  {
    if Covers(t, table, ip) then
      var cands := set k <- t.Keys | k.table == table && Contains(k.dest, ip);
      assert cands != {} by {
        var k :| k in t.Keys && k.table == table && Contains(k.dest, ip);
        assert k in cands;
      }
      BestExists(cands);
      var b :| b in cands && forall j <- cands :: Better(b, j);
      Some(b)
    else None
  }

  lemma BetterOrder(a: RouteKey, b: RouteKey, c: RouteKey)
    ensures Better(a, b) || Better(b, a)
    ensures Better(a, a)
    ensures Better(a, b) && Better(b, c) ==> Better(a, c)
  {
  }

  lemma {:induction false} BestExists(s: set<RouteKey>)
    requires s != {}
    ensures exists b :: b in s && forall j <- s :: Better(b, j)
    decreases |s|
  {
    hide *;
    var x :| x in s;
    BetterOrder(x, x, x);
    if s != {x} {
      assert s - {x} != {};
      BestExists(s - {x});
      var b :| b in s - {x} && forall j <- s - {x} :: Better(b, j);
      BetterOrder(b, x, x);
      var w := if Better(b, x) then b else x;
      forall j | j in s ensures Better(w, j) {
        if j != x { BetterOrder(x, b, j); }
      }
      assert w in s;
    }
  }

  /** In a table of truncated destinations the answer is unique. */
  lemma WinnerUnique(t: Table, table: nat, ip: Addr, a: RouteKey, b: RouteKey)
    requires Canonical(t)
    requires Wins(t, table, ip, a) && Wins(t, table, ip, b)
    ensures a == b
  {
    SameLengthSameBlock(a.dest, b.dest, ip);
  }

  lemma LookupIs(t: Table, table: nat, ip: Addr, k: RouteKey)
    requires Canonical(t) && Wins(t, table, ip, k)
    ensures Lookup(t, table, ip) == Some(k)
  {
    assert Covers(t, table, ip);
    WinnerUnique(t, table, ip, k, Lookup(t, table, ip).value);
  }

  lemma NotCovered(t: Table, table: nat, ip: Addr, k: RouteKey)
    requires !Covers(t, table, ip) && k.table == table && Contains(k.dest, ip)
    ensures k !in t.Keys
  {
  }

  /** Leftover entries change the answer exactly when one of them beats it. */
  lemma ExtraWinsIff(t0: Table, t: Table, table: nat, ip: Addr)
    requires Canonical(t) && t0.Keys <= t.Keys
    ensures Lookup(t, table, ip) != Lookup(t0, table, ip)
            <==> exists k <- t.Keys - t0.Keys :: k.table == table && Contains(k.dest, ip)
                   && (Lookup(t0, table, ip).None? || !Better(Lookup(t0, table, ip).value, k))
  {
    hide Contains, Better;
    var w0, w := Lookup(t0, table, ip), Lookup(t, table, ip);
    if w0.Some? && forall k <- t.Keys - t0.Keys | k.table == table && Contains(k.dest, ip) :: Better(w0.value, k) {
      assert Wins(t, table, ip, w0.value);
      LookupIs(t, table, ip, w0.value);
    }
    if w0.Some? && w == w0 {
      forall k | k in t.Keys - t0.Keys && k.table == table && Contains(k.dest, ip) ensures Better(w0.value, k) { }
    }
    if w.Some? && w0.None? {
      assert w.value in t.Keys;
      NotCovered(t0, table, ip, w.value);
    }
  }

  // ---------------------------------------------------------------- installing a route list

  /** No two routes of the list are stored under one kernel key. */
  ghost predicate KeysDistinct(rs: seq<Route>) {
    forall i, j :: 0 <= i < j < |rs| ==> KeyOf(rs[i]) != KeyOf(rs[j])
  }

  ghost predicate Installed(t: Table, r: Route) {
    KeyOf(r) in t && t[KeyOf(r)] == HopOf(r)
  }

  lemma KeyTruncated(r: Route)
    ensures Trunc(KeyOf(r).dest) == KeyOf(r).dest
  {
    TruncIdempotent(r.destination);
  }

  lemma {:induction false} InstallCanonical(t: Table, rs: seq<Route>)
    requires Canonical(t)
    ensures Canonical(Install(t, rs))
  {
    if rs != [] {
      InstallCanonical(t, rs[..|rs| - 1]);
      KeyTruncated(rs[|rs| - 1]);
    }
  }

  /** The keys after installing: the old ones and those of the routes. */
  lemma {:induction false} InstallKeys(t: Table, rs: seq<Route>, k: RouteKey)
    ensures k in Install(t, rs) <==> k in t || exists r <- rs :: KeyOf(r) == k
  {
    if rs != [] {
      var init, last := rs[..|rs| - 1], rs[|rs| - 1];
      InstallKeys(t, init, k);
      assert rs == init + [last];
    }
  }

  /** Every entry after installing is an untouched old one or belongs to a route of the list. */
  lemma {:induction false} InstallOrigin(t: Table, rs: seq<Route>, k: RouteKey) returns (own: Option<Route>)
    requires k in Install(t, rs)
    ensures own.Some? ==> own.value in rs && KeyOf(own.value) == k && HopOf(own.value) == Install(t, rs)[k]
    ensures own.None? ==> k in t && Install(t, rs)[k] == t[k] && forall r <- rs :: KeyOf(r) != k
  {
    if rs == [] {
      own := None;
    } else {
      var init, last := rs[..|rs| - 1], rs[|rs| - 1];
      assert rs == init + [last];
      if KeyOf(last) == k {
        own := Some(last);
      } else {
        own := InstallOrigin(t, init, k);
      }
    }
  }

  /** Routes with distinct keys survive each other. */
  lemma {:induction false} InstallKeepsAll(t: Table, rs: seq<Route>, r: Route)
    requires KeysDistinct(rs) && r in rs
    ensures Installed(Install(t, rs), r)
  {
    var init, last := rs[..|rs| - 1], rs[|rs| - 1];
    assert rs == init + [last];
    if r != last {
      InstallKeepsAll(t, init, r);
      var i :| 0 <= i < |init| && init[i] == r;
      assert KeyOf(rs[i]) != KeyOf(rs[|rs| - 1]);
    }
  }

  /** Whatever was covered stays covered, and so is every destination of the list. */
  lemma InstallCovers(t: Table, rs: seq<Route>, table: nat, ip: Addr)
    ensures Covers(t, table, ip) ==> Covers(Install(t, rs), table, ip)
    ensures (exists r <- rs :: r.table == table && Contains(r.destination, ip))
            ==> Covers(Install(t, rs), table, ip)
  {
    if k :| k in t.Keys && k.table == table && Contains(k.dest, ip) {
      InstallKeys(t, rs, k);
    }
    if r :| r in rs && r.table == table && Contains(r.destination, ip) {
      TruncSameMembers(r.destination, ip);
      InstallKeys(t, rs, KeyOf(r));
    }
  }

  /** Exactly the addresses of the destinations are covered by a freshly installed list. */
  lemma FreshCoversIff(rs: seq<Route>, table: nat, ip: Addr)
    ensures Covers(Install(map[], rs), table, ip)
            <==> exists r <- rs :: r.table == table && Contains(r.destination, ip)
  {
    InstallCovers(map[], rs, table, ip);
    var t := Install(map[], rs);
    if k :| k in t.Keys && k.table == table && Contains(k.dest, ip) {
      var own := InstallOrigin(map[], rs, k);
      TruncSameMembers(own.value.destination, ip);
    }
  }

  lemma {:induction false} InstallAppend(t: Table, a: seq<Route>, b: seq<Route>)
    ensures Install(t, a + b) == Install(Install(t, a), b)
  {
    if b == [] {
      assert a + b == a;
    } else {
      assert (a + b)[..|a + b| - 1] == a + b[..|b| - 1];
      InstallAppend(t, a, b[..|b| - 1]);
    }
  }
}
