/** The host the tool drives through `ip` and `iptables`, one command at a time.

    Every command may fail; a failing command changes nothing.  `trace` records the state
    after every command that changed something, so a claim about every intermediate state,
    including the one a crash would leave, is a claim about `trace`.  `failed` counts the
    commands that did not succeed, and `results` says of each command whether it did. */
module Kernel {
  import opened Net
  import opened Model
  import opened Fib
  import opened Netfilter

  /** Entries of the IPv4 main table; prefix length 0 is the default route. */
  datatype MainKey = MainKey(dest: Cidr, prio: nat)
  datatype MainHop = MainHop(dev: string, via: Option<Addr>)
  type MainTable = map<MainKey, MainHop>

  datatype Filters = Filters(v4: Filter, v6: Filter)
  {
    function Of(f: Family): Filter {
      if f == V4 then v4 else v6
    }

    function With(f: Family, x: Filter): Filters {
      if f == V4 then Filters(x, v6) else Filters(v4, x)
    }
  }

  datatype Snapshot = Snapshot(routes: Table, rules: set<RpdbRule>, main: MainTable, fw: Filters)

  /** An RPDB rule sends the address to the table before any other policy table answers it.  The
      tool's rules are IPv4 rules, so no IPv6 address is ever sent anywhere by them. */
  ghost predicate Consulted(s: Snapshot, table: nat, ip: Addr) {
    && ip.fam == V4
    && exists q <- s.rules :: q.table == table
         && forall o <- s.rules | o.table != table && o.priority <= q.priority :: !Covers(s.routes, o.table, ip)
  }

  datatype Outcome = Success | ExitFailure | SpawnFailure

  /** The last n commands all succeeded. */
  predicate LastSucceeded(results: seq<bool>, n: nat) {
    n <= |results| && forall i :: |results| - n <= i < |results| ==> results[i]
  }

  /** Between the two records n commands were issued, and this says whether all succeeded. */
  predicate Issued(before: seq<bool>, after: seq<bool>, n: nat, ok: bool) {
    && |after| == |before| + n && after[..|before|] == before
    && (ok <==> LastSucceeded(after, n))
  }

  lemma IssuedNone(r: seq<bool>)
    ensures Issued(r, r, 0, true)
  {
  }

  lemma NoneFailed(r0: seq<bool>, oks: seq<bool>)
    requires Issued(r0, r0 + oks, |oks|, true)
    ensures forall i :: 0 <= i < |oks| ==> oks[i]
  {
    forall i | 0 <= i < |oks| ensures oks[i] { assert (r0 + oks)[|r0| + i]; }
  }

  lemma IssuedOne(r0: seq<bool>, r1: seq<bool>, n: nat, ok: bool, next: bool)
    requires Issued(r0, r1, n, ok)
    ensures Issued(r0, r1 + [next], n + 1, ok && next)
  {
    assert (r1 + [next])[|r1|] == next;
    IssuedMore(r0, r1, r1 + [next], n, 1, ok, next);
  }

  lemma IssuedMore(r0: seq<bool>, r1: seq<bool>, r2: seq<bool>, n: nat, m: nat, ok1: bool, ok2: bool)
    requires Issued(r0, r1, n, ok1) && Issued(r1, r2, m, ok2)
    ensures Issued(r0, r2, n + m, ok1 && ok2)
  {
    assert r2[..|r0|] == r1[..|r0|];
    forall i | 0 <= i < |r1| ensures r2[i] == r1[i] { assert r2[i] == r2[..|r1|][i]; }
  }

  const DEFAULT_NET: Cidr := RawCidr(RawAddr(V4, 0), 0)

  predicate IsDefaultOn(m: MainTable, k: MainKey, dev: string) {
    k in m && k.dest == DEFAULT_NET && m[k].dev == dev
  }

  predicate HasDefault(m: MainTable, dev: string) {
    exists k <- m.Keys :: IsDefaultOn(m, k, dev)
  }

  function DefaultsOn(m: MainTable, dev: string): set<MainKey> {
    set k <- m.Keys | IsDefaultOn(m, k, dev)
  }

  lemma HasDefaultIff(m: MainTable, dev: string)
    ensures HasDefault(m, dev) <==> DefaultsOn(m, dev) != {}
  {
    if k :| k in m.Keys && IsDefaultOn(m, k, dev) { assert k in DefaultsOn(m, dev); }
    if k :| k in DefaultsOn(m, dev) { assert IsDefaultOn(m, k, dev); }
  }

  /** Destinations and types `ip route show table` prints: the IPv4 entries, where a unicast
      entry without a device is not recognised by the reader. */
  function Listing(t: Table, table: nat): set<(Cidr, RouteType)> {
    set k <- t.Keys | k.table == table && k.dest.addr.fam == V4 && (t[k].dev != "" || t[k].rtype != Unicast)
      :: (k.dest, t[k].rtype)
  }

  /** `ip route flush table` likewise works on the IPv4 entries. */
  function Flushed(t: Table, table: nat): Table {
    map k <- t.Keys | k.table != table || k.dest.addr.fam != V4 :: t[k]
  }

  function RemoveHook(output: seq<Hook>, h: Hook): seq<Hook> {
    if output == [] then []
    else if output[0] == h then output[1..]
    else [output[0]] + RemoveHook(output[1..], h)
  }

  lemma {:induction false} VictimExists(t: Table, r: Route, ks: set<RouteKey>)
    requires ks != {}
    ensures exists k :: k in ks && forall j <- ks :: k.prio <= j.prio
    decreases |ks|
  {
    var x :| x in ks;
    if ks != {x} {
      assert ks - {x} != {};
      VictimExists(t, r, ks - {x});
      var k :| k in ks - {x} && forall j <- ks - {x} :: k.prio <= j.prio;
      var w := if k.prio <= x.prio then k else x;
      assert w in ks && forall j <- ks :: w.prio <= j.prio;
    }
  }

  lemma DeleteIsVictim(t: Table, r: Route, k: RouteKey)
    requires Victim(t, r, k)
    ensures Delete(t, r) == t - {k}
  {
    forall j | Victim(t, r, j) ensures j == k { }
  }

  class Host {
    var routes: Table
    var rules: set<RpdbRule>
    var main: MainTable
    var fw: Filters
    ghost var trace: seq<Snapshot>
    ghost var failed: nat
    ghost var results: seq<bool>

    ghost function Now(): Snapshot
      reads this
    {
      Snapshot(routes, rules, main, fw)
    }

    method Run() returns (o: Outcome)
      modifies `failed, `results
      ensures results == old(results) + [failed == old(failed)]
      ensures failed == old(failed) + if o == Success then 0 else 1
    {
      o := *;
      results := results + [o == Success];
      if o != Success { failed := failed + 1; }
    }

    // -------------------------------------------------------------- policy tables

    method RouteReplace(r: Route) returns (o: Outcome)
      modifies `routes, `trace, `failed, `results
      ensures results == old(results) + [failed == old(failed)]
      ensures failed == old(failed) + if o == Success then 0 else 1
      ensures o == Success ==> routes == Replace(old(routes), r) && trace == old(trace) + [Now()]
      ensures o != Success ==> routes == old(routes) && trace == old(trace)
    {
      o := Run();
      if o == Success {
        routes := Replace(routes, r);
        trace := trace + [Now()];
      }
    }

    /** `missing` is the kernel's answer that no entry matches. */
    method RouteDel(r: Route) returns (o: Outcome, missing: bool)
      modifies `routes, `trace, `failed, `results
      ensures results == old(results) + [failed == old(failed)]
      ensures failed == old(failed) + if o == Success || missing then 0 else 1
      ensures o == Success || missing ==> routes == Delete(old(routes), r)
      ensures o == Success ==> trace == old(trace) + [Now()]
      ensures o != Success ==> routes == old(routes) && trace == old(trace)
    {
      missing := false;
      var hits := set k <- routes.Keys | DeleteMatches(r, k, routes[k]);
      if hits == {} {
        assert forall k :: Victim(routes, r, k) ==> k in hits;
        results := results + [true];
        return ExitFailure, true;
      }
      o := Run();
      if o == Success {
        VictimExists(routes, r, hits);
        var k :| k in hits && forall j <- hits :: k.prio <= j.prio;
        assert Victim(routes, r, k);
        DeleteIsVictim(routes, r, k);
        routes := routes - {k};
        trace := trace + [Now()];
      }
    }

    method RouteList(table: nat) returns (o: Outcome, lines: set<(Cidr, RouteType)>)
      modifies `failed, `results
      ensures results == old(results) + [failed == old(failed)]
      ensures failed == old(failed) + if o == Success then 0 else 1
      ensures lines == if o == Success then Listing(routes, table) else {}
    {
      o := Run();
      lines := if o == Success then Listing(routes, table) else {};
    }

    method RouteFlush(table: nat) returns (o: Outcome)
      modifies `routes, `trace, `failed, `results
      ensures results == old(results) + [failed == old(failed)]
      ensures failed == old(failed) + if o == Success then 0 else 1
      ensures o == Success ==> routes == Flushed(old(routes), table) && trace == old(trace) + [Now()]
      ensures o != Success ==> routes == old(routes) && trace == old(trace)
    {
      o := Run();
      if o == Success {
        routes := Flushed(routes, table);
        trace := trace + [Now()];
      }
    }

    // -------------------------------------------------------------- routing policy rules

    method RuleList() returns (o: Outcome, listed: set<RpdbRule>)
      modifies `failed, `results
      ensures results == old(results) + [failed == old(failed)]
      ensures failed == old(failed) + if o == Success then 0 else 1
      ensures listed == if o == Success then rules else {}
    {
      o := Run();
      listed := if o == Success then rules else {};
    }

    /** The kernel refuses to add a rule it already has. */
    method RuleAdd(r: RpdbRule) returns (o: Outcome)
      modifies `rules, `trace, `failed, `results
      ensures results == old(results) + [failed == old(failed)]
      ensures failed == old(failed) + if o == Success then 0 else 1
      ensures o == Success ==> rules == old(rules) + {r} && trace == old(trace) + [Now()]
      ensures o != Success ==> rules == old(rules) && trace == old(trace)
    {
      if r in rules {
        failed, results := failed + 1, results + [false];
        return ExitFailure;
      }
      o := Run();
      if o == Success {
        rules := rules + {r};
        trace := trace + [Now()];
      }
    }

    method RuleDel(r: RpdbRule) returns (o: Outcome)
      modifies `rules, `trace, `failed, `results
      ensures results == old(results) + [failed == old(failed)]
      ensures failed == old(failed) + if o == Success then 0 else 1
      ensures o == Success ==> rules == old(rules) - {r} && trace == old(trace) + [Now()]
      ensures o != Success ==> rules == old(rules) && trace == old(trace)
    {
      o := Run();
      if o == Success {
        rules := rules - {r};
        trace := trace + [Now()];
      }
    }

    // -------------------------------------------------------------- main table

    /** `ip route show default dev`: how many lines it prints. */
    method DefaultList(dev: string) returns (o: Outcome, lines: nat)
      modifies `failed, `results
      ensures results == old(results) + [failed == old(failed)]
      ensures failed == old(failed) + if o == Success then 0 else 1
      ensures lines == if o == Success then |DefaultsOn(main, dev)| else 0
    {
      o := Run();
      lines := if o == Success then |DefaultsOn(main, dev)| else 0;
    }

    /** `ip route show default`: the device of the first line, if any. */
    method DefaultFirst() returns (o: Outcome, dev: Option<string>)
      modifies `failed, `results
      ensures results == old(results) + [failed == old(failed)]
      ensures failed == old(failed) + if o == Success then 0 else 1
      ensures dev.Some? ==> HasDefault(main, dev.value)
      ensures o == Success && dev.None? ==> forall d :: !HasDefault(main, d)
    {
      o := Run();
      dev := None;
      if o == Success {
        var ks := set k <- main.Keys | k.dest == DEFAULT_NET;
        forall d, k | k in main.Keys && IsDefaultOn(main, k, d) ensures k in ks { }
        if ks != {} {
          var k :| k in ks;
          assert IsDefaultOn(main, k, main[k].dev);
          dev := Some(main[k].dev);
        }
      }
    }

    /** `ip route del default dev`: one default entry of the device disappears. */
    method DefaultDel(dev: string) returns (o: Outcome)
      modifies `main, `trace, `failed, `results
      ensures results == old(results) + [failed == old(failed)]
      ensures failed == old(failed) + if o == Success then 0 else 1
      ensures o == Success ==> trace == old(trace) + [Now()]
      ensures o == Success ==> exists k :: IsDefaultOn(old(main), k, dev) && main == old(main) - {k}
      ensures o != Success ==> main == old(main) && trace == old(trace)
    {
      var ks := DefaultsOn(main, dev);
      if ks == {} {
        failed, results := failed + 1, results + [false];
        return ExitFailure;
      }
      o := Run();
      if o == Success {
        var k :| k in ks;
        main := main - {k};
        trace := trace + [Now()];
      }
    }

    /** `ip route show dev`: the entries of the device, in the order printed. */
    method MainList(dev: string) returns (o: Outcome, lines: seq<(MainKey, MainHop)>)
      modifies `failed, `results
      ensures results == old(results) + [failed == old(failed)]
      ensures failed == old(failed) + if o == Success then 0 else 1
      ensures o != Success ==> lines == []
      ensures forall l <- lines :: l.0 in main && main[l.0] == l.1 && l.1.dev == dev
      ensures o == Success ==> forall k <- main :: main[k].dev == dev ==> (k, main[k]) in lines
    {
      o := Run();
      lines := [];
      if o == Success {
        var left := set k <- main.Keys | main[k].dev == dev;
        while left != {}
          invariant forall k <- left :: k in main && main[k].dev == dev
          invariant forall l <- lines :: l.0 in main && main[l.0] == l.1 && l.1.dev == dev
          invariant forall k <- main :: main[k].dev == dev ==> k in left || (k, main[k]) in lines
        {
          var k :| k in left;
          lines, left := lines + [(k, main[k])], left - {k};
        }
      }
    }

    method MainReplace(k: MainKey, h: MainHop) returns (o: Outcome)
      modifies `main, `trace, `failed, `results
      ensures results == old(results) + [failed == old(failed)]
      ensures failed == old(failed) + if o == Success then 0 else 1
      ensures o == Success ==> main == old(main)[k := h] && trace == old(trace) + [Now()]
      ensures o != Success ==> main == old(main) && trace == old(trace)
    {
      o := Run();
      if o == Success {
        main := main[k := h];
        trace := trace + [Now()];
      }
    }

    method MainDel(k: MainKey) returns (o: Outcome)
      modifies `main, `trace, `failed, `results
      ensures results == old(results) + [failed == old(failed)]
      ensures failed == old(failed) + if o == Success then 0 else 1
      ensures o == Success ==> main == old(main) - {k} && trace == old(trace) + [Now()]
      ensures o != Success ==> main == old(main) && trace == old(trace)
    {
      o := Run();
      if o == Success {
        main := main - {k};
        trace := trace + [Now()];
      }
    }

    // -------------------------------------------------------------- packet filter

    method SetFilter(f: Family, x: Filter)
      modifies `fw, `trace
      ensures fw == old(fw).With(f, x) && trace == old(trace) + [Now()]
    {
      fw := fw.With(f, x);
      trace := trace + [Now()];
    }

    /** `-S OUTPUT` */
    method HookList(f: Family) returns (o: Outcome, hooks: seq<Hook>)
      modifies `failed, `results
      ensures results == old(results) + [failed == old(failed)]
      ensures failed == old(failed) + if o == Success then 0 else 1
      ensures o == Success ==> hooks == fw.Of(f).output
    {
      o := Run();
      hooks := fw.Of(f).output;
    }

    /** `-N chain`: refused when the chain exists. */
    method ChainNew(f: Family, chain: string) returns (o: Outcome)
      modifies `fw, `trace, `failed, `results
      ensures results == old(results) + [failed == old(failed)]
      ensures failed >= old(failed)
      ensures o == Success ==>
                && chain !in old(fw).Of(f).chains
                && fw == old(fw).With(f, old(fw).Of(f).(chains := old(fw).Of(f).chains[chain := []]))
                && trace == old(trace) + [Now()]
      ensures o != Success ==> fw == old(fw) && trace == old(trace)
    {
      var now := fw.Of(f);
      if chain in now.chains {
        results := results + [true];
        return ExitFailure;
      }
      o := Run();
      if o == Success {
        SetFilter(f, now.(chains := now.chains[chain := []]));
      }
    }

    /** `-F chain`: fails when the chain does not exist. */
    method ChainFlush(f: Family, chain: string) returns (o: Outcome)
      modifies `fw, `trace, `failed, `results
      ensures results == old(results) + [failed == old(failed)]
      ensures failed == old(failed) + if o == Success then 0 else 1
      ensures o == Success ==>
                && chain in old(fw).Of(f).chains
                && fw == old(fw).With(f, old(fw).Of(f).(chains := old(fw).Of(f).chains[chain := []]))
                && trace == old(trace) + [Now()]
      ensures o != Success ==> fw == old(fw) && trace == old(trace)
    {
      var now := fw.Of(f);
      if chain !in now.chains {
        failed, results := failed + 1, results + [false];
        return ExitFailure;
      }
      o := Run();
      if o == Success {
        SetFilter(f, now.(chains := now.chains[chain := []]));
      }
    }

    /** `-A chain rule` */
    method ChainAppend(f: Family, chain: string, rule: FwRule) returns (o: Outcome)
      modifies `fw, `trace, `failed, `results
      ensures results == old(results) + [failed == old(failed)]
      ensures failed == old(failed) + if o == Success then 0 else 1
      ensures o == Success ==>
                && chain in old(fw).Of(f).chains
                && fw == old(fw).With(f, old(fw).Of(f).(
                     chains := old(fw).Of(f).chains[chain := old(fw).Of(f).chains[chain] + [rule]]))
                && trace == old(trace) + [Now()]
      ensures o != Success ==> fw == old(fw) && trace == old(trace)
    {
      var now := fw.Of(f);
      if chain !in now.chains {
        failed, results := failed + 1, results + [false];
        return ExitFailure;
      }
      o := Run();
      if o == Success {
        SetFilter(f, now.(chains := now.chains[chain := now.chains[chain] + [rule]]));
      }
    }

    /** `-X chain`: refused while the chain is hooked. */
    method ChainDelete(f: Family, chain: string) returns (o: Outcome)
      modifies `fw, `trace, `failed, `results
      ensures results == old(results) + [failed == old(failed)]
      ensures failed >= old(failed)
      ensures o == Success ==>
                && fw == old(fw).With(f, old(fw).Of(f).(chains := old(fw).Of(f).chains - {chain}))
                && trace == old(trace) + [Now()]
      ensures o != Success ==> fw == old(fw) && trace == old(trace)
      ensures o != Success && failed == old(failed) ==> exists h <- old(fw).Of(f).output :: h.chain == chain
    {
      var now := fw.Of(f);
      if exists h <- now.output :: h.chain == chain {
        results := results + [true];
        return ExitFailure;
      }
      o := Run();
      if o == Success {
        SetFilter(f, now.(chains := now.chains - {chain}));
      }
    }

    /** `iptables-save`: the chains, in some order. */
    method ChainList(f: Family) returns (o: Outcome, names: seq<string>)
      modifies `failed, `results
      ensures results == old(results) + [failed == old(failed)]
      ensures failed == old(failed) + if o == Success then 0 else 1
      ensures o == Success ==> forall c :: c in names <==> c in fw.Of(f).chains
      ensures o != Success ==> names == []
    {
      o := Run();
      names := [];
      if o == Success {
        var left := fw.Of(f).chains.Keys;
        while left != {}
          invariant left <= fw.Of(f).chains.Keys
          invariant forall c :: c in names <==> c in fw.Of(f).chains.Keys - left
        {
          var c :| c in left;
          names, left := names + [c], left - {c};
        }
      }
    }

    /** `-C OUTPUT -o iface -j chain`: may fail even when the hook is there. */
    method HookCheck(f: Family, h: Hook) returns (o: Outcome)
      modifies `failed, `results
      ensures results == old(results) + [failed == old(failed)]
      ensures failed >= old(failed)
      ensures o == Success ==> h in fw.Of(f).output
      ensures failed == old(failed) && o != Success ==> h !in fw.Of(f).output
    {
      if h !in fw.Of(f).output {
        results := results + [true];
        return ExitFailure;
      }
      o := Run();
    }

    /** `-I OUTPUT -o iface -j chain`: inserted in front. */
    method HookInsert(f: Family, h: Hook) returns (o: Outcome)
      modifies `fw, `trace, `failed, `results
      ensures results == old(results) + [failed == old(failed)]
      ensures failed == old(failed) + if o == Success then 0 else 1
      ensures o == Success ==>
                && fw == old(fw).With(f, old(fw).Of(f).(output := [h] + old(fw).Of(f).output))
                && trace == old(trace) + [Now()]
      ensures o != Success ==> fw == old(fw) && trace == old(trace)
    {
      var now := fw.Of(f);
      o := Run();
      if o == Success {
        SetFilter(f, now.(output := [h] + now.output));
      }
    }

    /** `-D OUTPUT -o iface -j chain`: removes the first such hook. */
    method HookDelete(f: Family, h: Hook) returns (o: Outcome)
      modifies `fw, `trace, `failed, `results
      ensures results == old(results) + [failed == old(failed)]
      ensures failed == old(failed) + if o == Success then 0 else 1
      ensures o == Success ==>
                && h in old(fw).Of(f).output
                && fw == old(fw).With(f, old(fw).Of(f).(output := RemoveHook(old(fw).Of(f).output, h)))
                && trace == old(trace) + [Now()]
      ensures o != Success ==> fw == old(fw) && trace == old(trace)
    {
      var now := fw.Of(f);
      if h !in now.output {
        failed, results := failed + 1, results + [false];
        return ExitFailure;
      }
      o := Run();
      if o == Success {
        SetFilter(f, now.(output := RemoveHook(now.output, h)));
      }
    }
  }
}
