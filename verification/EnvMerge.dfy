/** Merging an environment file into the configuration: additive on every list, and idempotent,
    so that a saved configuration that already holds the merge survives the next one. */
module EnvMerge {
  import opened Net
  import opened Model
  import opened Seqs
  import opened Config

  datatype Spec = Spec(cidr: string, port: Option<nat>)

  /** A target item as its texts were read: a network, or a host name still to be resolved. */
  datatype Item = Literal(spec: Spec) | Named(domain: string, port: Option<nat>)

  datatype Record = Record(name: string, addrs: seq<Addr>)

  /** One key/value line, holding what of its value could be read. */
  datatype Line =
    | Targets(items: seq<Item>)
    | Subnets(specs: seq<Spec>)
    | TargetInterface(names: seq<string>)
    | WanInterface(name: string)
    | Fallback(word: string)
    | Blacklist(nets: seq<Cidr>)
    | Records(records: seq<Record>)
    | LanDomains(names: seq<string>)
    | DnsServers(servers: seq<Addr>)

  /** How the tool prints a host network and names a target made from a spec. */
  datatype Printer = Printer(host: Addr -> string, name: Spec -> string)

  // ---------------------------------------------------------------- pushes without repetition

  /** Push each element that is not there yet. */
  function Extend<A(==)>(xs: seq<A>, ys: seq<A>): (r: seq<A>)
    ensures xs <= r && (forall y <- r :: y in xs || y in ys) && (forall y <- ys :: y in r)
  {
    if ys == [] then xs else
      var init, y := Extend(xs, ys[..|ys| - 1]), ys[|ys| - 1];
      assert ys == ys[..|ys| - 1] + [y];
      if y in init then init else init + [y]
  }

  lemma {:induction false} ExtendHeld<A>(xs: seq<A>, ys: seq<A>)
    requires forall y <- ys :: y in xs
    ensures Extend(xs, ys) == xs
  {
    if ys != [] { ExtendHeld(xs, ys[..|ys| - 1]); }
  }

  predicate Distinct<A(==)>(xs: seq<A>) {
    forall i, j :: 0 <= i < j < |xs| ==> xs[i] != xs[j]
  }

  lemma {:induction false} ExtendDistinct<A>(xs: seq<A>, ys: seq<A>)
    requires Distinct(xs)
    ensures Distinct(Extend(xs, ys))
  {
    if ys != [] { ExtendDistinct(xs, ys[..|ys| - 1]); }
  }

  lemma ExtendStep<A>(xs: seq<A>, ys: seq<A>, y: A)
    ensures Extend(xs, ys + [y]) == if y in Extend(xs, ys) then Extend(xs, ys) else Extend(xs, ys) + [y]
    ensures Extend(xs, ys + []) == Extend(xs, ys)
  {
    assert (ys + [y])[..|ys|] == ys && ys + [] == ys;
  }

  // ---------------------------------------------------------------- what the lines say

  function NetsOf(l: Line): seq<Cidr> { if l.Blacklist? then l.nets else [] }
  function ServersOf(l: Line): seq<Addr> { if l.DnsServers? then l.servers else [] }
  function RecordsOf(l: Line): seq<Record> { if l.Records? then l.records else [] }

  function Canonical(name: string): seq<string> {
    if ConfigCanonical(name) == "" then [] else [ConfigCanonical(name)]
  }

  function DomainsOf(l: Line): seq<string> { if l.LanDomains? then FlatMap(l.names, Canonical) else [] }

  function LiteralOf(i: Item): seq<Spec> { if i.Literal? then [i.spec] else [] }
  function NamedOf(i: Item): seq<Item> { if i.Named? then [i] else [] }

  function SpecsOf(l: Line): seq<Spec> {
    match l
    case Targets(items) => FlatMap(items, LiteralOf)
    case Subnets(specs) => specs
    case _ => []
  }

  function PendingOf(l: Line): seq<Item> { if l.Targets? then FlatMap(l.items, NamedOf) else [] }

  /** The last line of a kind wins. */
  function ViaOf(ls: seq<Line>): seq<string> {
    if ls == [] then []
    else if ls[|ls| - 1].TargetInterface? then ls[|ls| - 1].names
    else ViaOf(ls[..|ls| - 1])
  }

  function WanOfLines(ls: seq<Line>): Option<string> {
    if ls == [] then None
    else if ls[|ls| - 1].WanInterface? then Some(ls[|ls| - 1].name)
    else WanOfLines(ls[..|ls| - 1])
  }

  function FallbackOf(ls: seq<Line>): string {
    if ls == [] then "drop"
    else if ls[|ls| - 1].Fallback? then ls[|ls| - 1].word
    else FallbackOf(ls[..|ls| - 1])
  }

  // ---------------------------------------------------------------- the merge

  type Dns = map<string, seq<Addr>>

  function AddressesOf(dns: Dns, key: string): seq<Addr> {
    if key in dns then dns[key] else []
  }

  /** The record is created even when none of its addresses could be read. */
  function PutRecord(dns: Dns, r: Record): Dns {
    var key := ConfigCanonical(r.name);
    if key == "" then dns else dns[key := Extend(AddressesOf(dns, key), r.addrs)]
  }

  function PutRecords(dns: Dns, rs: seq<Record>): Dns {
    if rs == [] then dns else PutRecord(PutRecords(dns, rs[..|rs| - 1]), rs[|rs| - 1])
  }

  function Resolved(p: Printer, dns: Dns, i: Item): seq<Spec> {
    if i.Named? && ConfigCanonical(i.domain) in dns
    then FlatMap(dns[ConfigCanonical(i.domain)], (a: Addr) => [Spec(p.host(a), i.port)])
    else []
  }

  function Resolutions(p: Printer, dns: Dns): Item -> seq<Spec> {
    (i: Item) => Resolved(p, dns, i)
  }

  predicate HasTarget(ts: seq<TargetConfig>, s: Spec) {
    exists t <- ts :: t.cidr == s.cidr && t.port == s.port
  }

  function AddTargets(p: Printer, ts: seq<TargetConfig>, specs: seq<Spec>, via: seq<string>,
                      fallback: string): (r: seq<TargetConfig>)
    ensures ts <= r && forall s <- specs :: HasTarget(r, s)
    ensures forall t <- r :: t in ts || (Spec(t.cidr, t.port) in specs && t.via == via && t.fallback == fallback)
  {
    if specs == [] then ts else
      var init, s := AddTargets(p, ts, specs[..|specs| - 1], via, fallback), specs[|specs| - 1];
      assert specs == specs[..|specs| - 1] + [s];
      if HasTarget(init, s) then init
      else
        var r := init + [TargetConfig(p.name(s), s.cidr, s.port, via, fallback)];
        assert r[|init|] in r;
        r
  }

  function MergedDns(c: Settings, ls: seq<Line>): Dns {
    PutRecords(c.localDns, FlatMap(ls, RecordsOf))
  }

  function AllSpecs(p: Printer, dns: Dns, ls: seq<Line>): seq<Spec> {
    FlatMap(ls, SpecsOf) + FlatMap(FlatMap(ls, PendingOf), Resolutions(p, dns))
  }

  function PendingName(i: Item): seq<string> { if i.Named? then Canonical(i.domain) else [] }

  function PendingDomains(ls: seq<Line>): seq<string> {
    FlatMap(FlatMap(ls, PendingOf), PendingName)
  }

  /** The configuration after `apply_env_str`. */
  function Merged(p: Printer, c: Settings, ls: seq<Line>): Settings {
    var dns, via := MergedDns(c, ls), ViaOf(ls);
    c.(blacklist := Extend(c.blacklist, FlatMap(ls, NetsOf)),
       lanDnsServers := Extend(c.lanDnsServers, FlatMap(ls, ServersOf)),
       localDns := dns,
       lanDomains := Extend(Extend(c.lanDomains, FlatMap(ls, DomainsOf)), PendingDomains(ls)),
       wanInterfaces := if WanOfLines(ls).Some? then [WanOfLines(ls).value] else c.wanInterfaces,
       lanInterfaces := if via != [] then via else c.lanInterfaces,
       targets := AddTargets(p, c.targets, AllSpecs(p, dns, ls), via, FallbackOf(ls)))
  }

  // ---------------------------------------------------------------- monotone and idempotent

  ghost predicate GrowsTo(a: Dns, b: Dns) {
    forall k <- a :: k in b && a[k] <= b[k]
  }

  lemma {:induction false} RecordsGrow(dns: Dns, rs: seq<Record>)
    ensures GrowsTo(dns, PutRecords(dns, rs))
    ensures forall r <- rs :: ConfigCanonical(r.name) != "" ==>
              && ConfigCanonical(r.name) in PutRecords(dns, rs)
              && forall a <- r.addrs :: a in PutRecords(dns, rs)[ConfigCanonical(r.name)]
  {
    if rs != [] {
      RecordsGrow(dns, rs[..|rs| - 1]);
      assert rs == rs[..|rs| - 1] + [rs[|rs| - 1]];
    }
  }

  lemma {:induction false} RecordsHeld(dns: Dns, rs: seq<Record>)
    requires forall r <- rs :: ConfigCanonical(r.name) != "" ==>
               ConfigCanonical(r.name) in dns && forall a <- r.addrs :: a in dns[ConfigCanonical(r.name)]
    ensures PutRecords(dns, rs) == dns
  {
    if rs != [] {
      RecordsHeld(dns, rs[..|rs| - 1]);
      var r := rs[|rs| - 1];
      assert r in rs;
      if ConfigCanonical(r.name) != "" { ExtendHeld(dns[ConfigCanonical(r.name)], r.addrs); }
    }
  }

  lemma {:induction false} TargetsHeld(p: Printer, ts: seq<TargetConfig>, specs: seq<Spec>, via: seq<string>,
                                       fallback: string)
    requires forall s <- specs :: HasTarget(ts, s)
    ensures AddTargets(p, ts, specs, via, fallback) == ts
  {
    if specs != [] {
      TargetsHeld(p, ts, specs[..|specs| - 1], via, fallback);
      assert specs[|specs| - 1] in specs;
    }
  }

  /** Idempotent: for every starting configuration and every file, merging twice is merging once. */
  lemma MergeIdempotent(p: Printer, c: Settings, ls: seq<Line>)
    ensures Merged(p, Merged(p, c, ls), ls) == Merged(p, c, ls)
  {
    var d := Merged(p, c, ls);
    ExtendHeld(d.blacklist, FlatMap(ls, NetsOf));
    ExtendHeld(d.lanDnsServers, FlatMap(ls, ServersOf));
    ExtendHeld(d.lanDomains, FlatMap(ls, DomainsOf));
    ExtendHeld(d.lanDomains, PendingDomains(ls));
    RecordsGrow(c.localDns, FlatMap(ls, RecordsOf));
    RecordsHeld(d.localDns, FlatMap(ls, RecordsOf));
    TargetsHeld(p, d.targets, AllSpecs(p, d.localDns, ls), ViaOf(ls), FallbackOf(ls));
  }

  predicate NoDuplicates(c: Settings) {
    && Distinct(c.blacklist) && Distinct(c.lanDnsServers) && Distinct(c.lanDomains)
    && (forall k <- c.localDns :: Distinct(c.localDns[k]))
    && DistinctTargets(c.targets)
  }

  predicate DistinctTargets(ts: seq<TargetConfig>) {
    forall i, j :: 0 <= i < j < |ts| ==> ts[i].cidr != ts[j].cidr || ts[i].port != ts[j].port
  }

  lemma {:induction false} RecordsDistinct(dns: Dns, rs: seq<Record>)
    requires forall k <- dns :: Distinct(dns[k])
    ensures forall k <- PutRecords(dns, rs) :: Distinct(PutRecords(dns, rs)[k])
  {
    if rs != [] {
      var init := PutRecords(dns, rs[..|rs| - 1]);
      RecordsDistinct(dns, rs[..|rs| - 1]);
      ExtendDistinct(AddressesOf(init, ConfigCanonical(rs[|rs| - 1].name)), rs[|rs| - 1].addrs);
    }
  }

  lemma {:induction false} TargetsDistinct(p: Printer, ts: seq<TargetConfig>, specs: seq<Spec>, via: seq<string>,
                                           fallback: string)
    requires DistinctTargets(ts)
    ensures DistinctTargets(AddTargets(p, ts, specs, via, fallback))
  {
    if specs != [] {
      TargetsDistinct(p, ts, specs[..|specs| - 1], via, fallback);
      var init, s := AddTargets(p, ts, specs[..|specs| - 1], via, fallback), specs[|specs| - 1];
      forall i | 0 <= i < |init| ensures init[i].cidr == s.cidr && init[i].port == s.port ==> HasTarget(init, s) {
        assert init[i] in init;
      }
    }
  }

  /** Monotone: lists and records only grow at the end, and no duplicate is ever introduced. */
  lemma MergeMonotone(p: Printer, c: Settings, ls: seq<Line>)
    ensures var d := Merged(p, c, ls);
            && c.blacklist <= d.blacklist && c.lanDnsServers <= d.lanDnsServers && c.lanDomains <= d.lanDomains
            && c.targets <= d.targets && GrowsTo(c.localDns, d.localDns)
            && (NoDuplicates(c) ==> NoDuplicates(d))
  {
    hide Extend, AddTargets, PutRecords, FlatMap, Distinct, DistinctTargets;
    RecordsGrow(c.localDns, FlatMap(ls, RecordsOf));
    if NoDuplicates(c) {
      ExtendDistinct(c.blacklist, FlatMap(ls, NetsOf));
      ExtendDistinct(c.lanDnsServers, FlatMap(ls, ServersOf));
      ExtendDistinct(c.lanDomains, FlatMap(ls, DomainsOf));
      ExtendDistinct(Extend(c.lanDomains, FlatMap(ls, DomainsOf)), PendingDomains(ls));
      RecordsDistinct(c.localDns, FlatMap(ls, RecordsOf));
      TargetsDistinct(p, c.targets, AllSpecs(p, MergedDns(c, ls), ls), ViaOf(ls), FallbackOf(ls));
    }
  }

  /** Every target has interfaces, and only these. */
  predicate Within(ts: seq<TargetConfig>, ifaces: seq<string>) {
    forall t <- ts :: t.via != [] && forall i <- t.via :: i in ifaces
  }

  lemma {:induction false} NothingAdded(p: Printer, ts: seq<TargetConfig>, specs: seq<Spec>, via: seq<string>,
                                        fallback: string)
    ensures AddTargets(p, ts, specs, via, fallback) == ts <==> forall s <- specs :: HasTarget(ts, s)
  {
    if forall s <- specs :: HasTarget(ts, s) { TargetsHeld(p, ts, specs, via, fallback); }
  }

  /** What the strict profile asks of the targets' interfaces survives a merge exactly when the
      older targets fit the interfaces the file leaves in force and no target is added by a file
      that names none.  A file that names interfaces thus replaces the list but no target's own. */
  lemma InterfacesFitExactly(p: Printer, c: Settings, ls: seq<Line>)
    ensures var d := Merged(p, c, ls);
            Within(d.targets, d.lanInterfaces)
            <==> && Within(c.targets, if ViaOf(ls) != [] then ViaOf(ls) else c.lanInterfaces)
                 && (ViaOf(ls) != [] || forall s <- AllSpecs(p, d.localDns, ls) :: HasTarget(c.targets, s))
    ensures ViaOf(ls) != [] ==>
              var d := Merged(p, c, ls);
              ((forall t <- d.targets, i <- t.via :: i in d.lanInterfaces)
               <==> forall t <- c.targets, i <- t.via :: i in ViaOf(ls))
  {
    hide ViaOf, AllSpecs, MergedDns, FallbackOf, PendingDomains, FlatMap, Extend, HasTarget;
    var d := Merged(p, c, ls);
    var specs := AllSpecs(p, d.localDns, ls);
    NothingAdded(p, c.targets, specs, ViaOf(ls), FallbackOf(ls));
    assert c.targets <= d.targets;
    forall t | t in c.targets ensures t in d.targets { }
    if d.targets != c.targets {
      AddedTarget(p, c.targets, specs, ViaOf(ls), FallbackOf(ls), |c.targets|);
      assert d.targets[|c.targets|] in d.targets;
    }
  }

  lemma {:induction false} AddedTarget(p: Printer, ts: seq<TargetConfig>, specs: seq<Spec>, via: seq<string>,
                                       fallback: string, i: nat)
    requires |ts| <= i < |AddTargets(p, ts, specs, via, fallback)|
    ensures AddTargets(p, ts, specs, via, fallback)[i].via == via
  {
    if i < |AddTargets(p, ts, specs[..|specs| - 1], via, fallback)| {
      AddedTarget(p, ts, specs[..|specs| - 1], via, fallback, i);
    }
  }

  /** In particular the result of moving the LAN away from an older target is never strict. */
  lemma InterfaceChangeRejected(rd: Reader, p: Printer, c: Settings, ls: seq<Line>, t: TargetConfig, iface: string)
    requires ViaOf(ls) != [] && t in c.targets && iface in t.via && iface !in ViaOf(ls)
    ensures !Strict(rd, Merged(p, c, ls))
  {
    assert t in Merged(p, c, ls).targets;
    assert !TargetStrict(rd, Merged(p, c, ls), t);
  }

  /** Some record line names the key. */
  predicate Mentioned(rs: seq<Record>, key: string) {
    key != "" && exists r <- rs :: ConfigCanonical(r.name) == key
  }

  /** Some record line gives the key a readable address. */
  predicate Answered(rs: seq<Record>, key: string) {
    key != "" && exists r <- rs :: ConfigCanonical(r.name) == key && r.addrs != []
  }

  lemma {:induction false} RecordsKnown(dns: Dns, rs: seq<Record>, key: string)
    ensures key in PutRecords(dns, rs) <==> key in dns || Mentioned(rs, key)
    ensures AddressesOf(PutRecords(dns, rs), key) == [] <==> AddressesOf(dns, key) == [] && !Answered(rs, key)
  {
    hide Extend, ConfigCanonical, Mentioned, Answered;
    if rs == [] {
      NoRecords(key);
    } else {
      var init, r := rs[..|rs| - 1], rs[|rs| - 1];
      RecordsKnown(dns, init, key);
      OneMoreRecord(init, r, key);
      assert rs == init + [r];
      EmptyExtension(AddressesOf(PutRecords(dns, init), key), r.addrs);
    }
  }

  lemma NoRecords(key: string)
    ensures !Mentioned([], key) && !Answered([], key)
  {
  }

  lemma OneMoreRecord(rs: seq<Record>, r: Record, key: string)
    ensures Mentioned(rs + [r], key) <==> Mentioned(rs, key) || (key != "" && ConfigCanonical(r.name) == key)
    ensures Answered(rs + [r], key)
            <==> Answered(rs, key) || (key != "" && ConfigCanonical(r.name) == key && r.addrs != [])
  {
    hide ConfigCanonical;
    assert r in rs + [r];
    forall x | x in rs ensures x in rs + [r] { }
  }

  lemma EmptyExtension<A>(xs: seq<A>, ys: seq<A>)
    ensures Extend(xs, ys) == [] <==> xs == [] && ys == []
  {
    if ys != [] { assert ys[0] in Extend(xs, ys); }
  }

  /** A name is known without an address after a merge if and only if it had none before, the
      configuration or a record line knows it, and no record line gives it a readable one.  The
      strict profile takes exactly these names for answered although nothing is routed. */
  lemma UnansweredExactly(p: Printer, c: Settings, ls: seq<Line>, name: string)
    ensures var key, rs := ConfigCanonical(name), FlatMap(ls, RecordsOf);
            Resolve(Merged(p, c, ls), name) == Some([])
            <==> && AddressesOf(c.localDns, key) == [] && !Answered(rs, key)
                 && (key in c.localDns || Mentioned(rs, key))
    ensures Resolve(Merged(p, c, ls), name) == Some([]) ==> DomainStrict(Merged(p, c, ls), name)
  {
    hide Extend, AddTargets, PutRecords, FlatMap, ConfigCanonical;
    RecordsKnown(c.localDns, FlatMap(ls, RecordsOf), ConfigCanonical(name));
  }

  /** The shortest such file: one record line without a readable address. */
  lemma EmptyRecordPasses(p: Printer, c: Settings, name: string)
    requires ConfigCanonical(name) != "" && ConfigCanonical(name) !in c.localDns
    ensures !DomainStrict(c, name)
    ensures DomainStrict(Merged(p, c, [Records([Record(name, [])])]), name)
    ensures Resolve(Merged(p, c, [Records([Record(name, [])])]), name) == Some([])
  {
    var ls := [Records([Record(name, [])])];
    assert ls[..0] == [];
    assert FlatMap(ls, RecordsOf) == [Record(name, [])];
    UnansweredExactly(p, c, ls, name);
  }

  // ---------------------------------------------------------------- the merge, line by line

  /** A target line gives a host name. */
  predicate Waits(ls: seq<Line>, i: Item) {
    i.Named? && exists l <- ls :: l.Targets? && i in l.items
  }

  /** A record line gives the key this address. */
  predicate Gives(ls: seq<Line>, key: string, a: Addr) {
    key != "" && exists l <- ls, r :: l.Records? && r in l.records && ConfigCanonical(r.name) == key && a in r.addrs
  }

  predicate Names(ls: seq<Line>, key: string) {
    key != "" && exists l <- ls, r :: l.Records? && r in l.records && ConfigCanonical(r.name) == key
  }

  /** Everything the file lists is in the result, and nothing else is new: blacklist, servers and
      names, over the lines themselves. */
  lemma ListsExactly(p: Printer, c: Settings, ls: seq<Line>, net: Cidr, server: Addr, name: string)
    ensures var d := Merged(p, c, ls);
            && (net in d.blacklist <==> net in c.blacklist || exists l <- ls :: l.Blacklist? && net in l.nets)
            && (server in d.lanDnsServers
                <==> server in c.lanDnsServers || exists l <- ls :: l.DnsServers? && server in l.servers)
            && (name in d.lanDomains
                <==> || name in c.lanDomains
                     || (name != ""
                         && exists l <- ls, n :: l.LanDomains? && n in l.names && ConfigCanonical(n) == name)
                     || (name != "" && exists i: Item :: Waits(ls, i) && ConfigCanonical(i.domain) == name))
  {
    hide Extend, ConfigCanonical;
    FlatMapMember(ls, NetsOf, net);
    FlatMapMember(ls, ServersOf, server);
    FlatMapMember(ls, DomainsOf, name);
    forall l: Line | l.LanDomains?
      ensures name in DomainsOf(l) <==> name != "" && exists n <- l.names :: ConfigCanonical(n) == name
    {
      FlatMapMember(l.names, Canonical, name);
    }
    PendingDomain(ls, name);
  }

  lemma PendingDomain(ls: seq<Line>, name: string)
    ensures name in PendingDomains(ls)
            <==> name != "" && exists i: Item :: Waits(ls, i) && ConfigCanonical(i.domain) == name
  {
    hide ConfigCanonical;
    FlatMapMember(FlatMap(ls, PendingOf), PendingName, name);
    forall i: Item { PendingItem(ls, i); }
  }

  lemma PendingItem(ls: seq<Line>, i: Item)
    ensures i in FlatMap(ls, PendingOf) <==> Waits(ls, i)
  {
    FlatMapMember(ls, PendingOf, i);
    forall l: Line | l.Targets? ensures i in PendingOf(l) <==> i.Named? && i in l.items {
      FlatMapMember(l.items, NamedOf, i);
    }
  }

  /** A name has an address exactly if it had it or a record line gives it one; it is known
      exactly if it was or a record line names it. */
  lemma AddressesExactly(p: Printer, c: Settings, ls: seq<Line>, key: string, a: Addr)
    ensures var d := Merged(p, c, ls);
            && (key in d.localDns
                <==> key in c.localDns || Names(ls, key))
            && (key in d.localDns && a in d.localDns[key]
                <==> (key in c.localDns && a in c.localDns[key]) || Gives(ls, key, a))
  {
    hide Extend, ConfigCanonical, AddTargets, PutRecords;
    var rs := FlatMap(ls, RecordsOf);
    RecordsKnown(c.localDns, rs, key);
    RecordAddresses(c.localDns, rs, key, a);
    forall r: Record ensures r in rs <==> exists l <- ls :: l.Records? && r in l.records {
      FlatMapMember(ls, RecordsOf, r);
    }
    if key != "" {
      if l, r :| l in ls && l.Records? && r in l.records && ConfigCanonical(r.name) == key { assert r in rs; }
    }
  }

  lemma {:induction false} RecordAddresses(dns: Dns, rs: seq<Record>, key: string, a: Addr)
    ensures a in AddressesOf(PutRecords(dns, rs), key)
            <==> a in AddressesOf(dns, key)
                 || (key != "" && exists r <- rs :: ConfigCanonical(r.name) == key && a in r.addrs)
  {
    hide Extend, ConfigCanonical;
    if rs != [] {
      RecordAddresses(dns, rs[..|rs| - 1], key, a);
      assert rs == rs[..|rs| - 1] + [rs[|rs| - 1]];
    }
  }

  /** The file lists this CIDR text and port: as a target, as a subnet, or as a host name that the
      records, merged, resolve. */
  ghost predicate Lists(p: Printer, dns: Dns, ls: seq<Line>, s: Spec) {
    || (exists l <- ls :: l.Targets? && exists i <- l.items :: i == Literal(s))
    || (exists l <- ls :: l.Subnets? && s in l.specs)
    || (exists i: Item | Waits(ls, i) && i.port == s.port && ConfigCanonical(i.domain) in dns ::
          exists a <- dns[ConfigCanonical(i.domain)] :: p.host(a) == s.cidr)
  }

  /** The last interface line, or none, gives the interfaces of what the file adds. */
  ghost predicate LastVia(ls: seq<Line>, via: seq<string>) {
    || (via == [] && forall l <- ls :: !l.TargetInterface?)
    || exists i :: 0 <= i < |ls| && ls[i] == TargetInterface(via)
         && forall j :: i < j < |ls| ==> !ls[j].TargetInterface?
  }

  ghost predicate LastFallback(ls: seq<Line>, word: string) {
    || (word == "drop" && forall l <- ls :: !l.Fallback?)
    || exists i :: 0 <= i < |ls| && ls[i] == Fallback(word) && forall j :: i < j < |ls| ==> !ls[j].Fallback?
  }

  ghost predicate LastWan(ls: seq<Line>, before: seq<string>, after: seq<string>) {
    || (after == before && forall l <- ls :: !l.WanInterface?)
    || exists i :: 0 <= i < |ls| && ls[i].WanInterface? && after == [ls[i].name]
         && forall j :: i < j < |ls| ==> !ls[j].WanInterface?
  }

  /** Targets: a CIDR text and port has one exactly if it had or the file lists it; each one that
      is new carries the last interface line's interfaces and the last fallback, "drop" without
      one.  The last WAN line and the last interface line replace those lists, an empty one does
      not; nothing else changes. */
  lemma TargetsExactly(p: Printer, c: Settings, ls: seq<Line>, s: Spec, via: seq<string>, word: string)
    requires LastVia(ls, via) && LastFallback(ls, word)
    ensures var d := Merged(p, c, ls);
            && ((exists t <- d.targets :: t.cidr == s.cidr && t.port == s.port)
                <==> (exists t <- c.targets :: t.cidr == s.cidr && t.port == s.port) || Lists(p, d.localDns, ls, s))
            && (forall t <- d.targets :: t in c.targets
                  || (t.via == via && t.fallback == word && t.name == p.name(Spec(t.cidr, t.port))
                      && Lists(p, d.localDns, ls, Spec(t.cidr, t.port))))
            && LastWan(ls, c.wanInterfaces, d.wanInterfaces)
            && d.lanInterfaces == (if via != [] then via else c.lanInterfaces)
            && d == c.(blacklist := d.blacklist, lanDnsServers := d.lanDnsServers, localDns := d.localDns,
                       lanDomains := d.lanDomains, wanInterfaces := d.wanInterfaces,
                       lanInterfaces := d.lanInterfaces, targets := d.targets)
  {
    hide Extend, ConfigCanonical, AddTargets, PutRecords, Lists, AllSpecs, ViaOf, FallbackOf, WanOfLines, LastVia,
         LastFallback, LastWan;
    var d := Merged(p, c, ls);
    var specs := AllSpecs(p, d.localDns, ls);
    LastLines(ls, via, word, c.wanInterfaces);
    forall x: Spec { AllListed(p, d.localDns, ls, x); }
    NewTargets(p, c.targets, specs, via, word);
  }

  lemma {:induction false} NewTargets(p: Printer, ts: seq<TargetConfig>, specs: seq<Spec>, via: seq<string>,
                                      fallback: string)
    ensures forall t <- AddTargets(p, ts, specs, via, fallback) :: t in ts
              || (Spec(t.cidr, t.port) in specs && t.via == via && t.fallback == fallback
                  && t.name == p.name(Spec(t.cidr, t.port)))
  {
    if specs != [] {
      NewTargets(p, ts, specs[..|specs| - 1], via, fallback);
      assert specs == specs[..|specs| - 1] + [specs[|specs| - 1]];
    }
  }

  lemma {:induction false} LastLines(ls: seq<Line>, via: seq<string>, word: string, wan: seq<string>)
    ensures LastVia(ls, via) <==> via == ViaOf(ls)
    ensures LastFallback(ls, word) <==> word == FallbackOf(ls)
    ensures LastWan(ls, wan, if WanOfLines(ls).Some? then [WanOfLines(ls).value] else wan)
  {
    if ls != [] {
      var init, l := ls[..|ls| - 1], ls[|ls| - 1];
      LastLines(init, via, word, wan);
      assert ls == init + [l];
      LastViaStep(init, l, via);
      LastFallbackStep(init, l, word);
      LastWanStep(init, l, wan, if WanOfLines(ls).Some? then [WanOfLines(ls).value] else wan);
    }
  }

  lemma LastViaStep(init: seq<Line>, l: Line, via: seq<string>)
    ensures LastVia(init + [l], via) <==> if l.TargetInterface? then via == l.names else LastVia(init, via)
  {
    var ls := init + [l];
    assert l in ls && ls[|init|] == l && forall x <- init :: x in ls;
    if i :| 0 <= i < |init| && init[i] == TargetInterface(via)
            && forall j :: i < j < |init| ==> !init[j].TargetInterface?
    {
      assert ls[i] == init[i];
    }
    if i :| 0 <= i < |ls| && ls[i] == TargetInterface(via) && forall j :: i < j < |ls| ==> !ls[j].TargetInterface? {
      if i < |init| {
        assert init[i] == ls[i] && forall j :: i < j < |init| ==> init[j] == ls[j];
      }
    }
  }

  lemma LastFallbackStep(init: seq<Line>, l: Line, word: string)
    ensures LastFallback(init + [l], word) <==> if l.Fallback? then word == l.word else LastFallback(init, word)
  {
    var ls := init + [l];
    assert l in ls && ls[|init|] == l && forall x <- init :: x in ls;
    if i :| 0 <= i < |init| && init[i] == Fallback(word) && forall j :: i < j < |init| ==> !init[j].Fallback? {
      assert ls[i] == init[i];
    }
    if i :| 0 <= i < |ls| && ls[i] == Fallback(word) && forall j :: i < j < |ls| ==> !ls[j].Fallback? {
      if i < |init| {
        assert init[i] == ls[i] && forall j :: i < j < |init| ==> init[j] == ls[j];
      }
    }
  }

  lemma LastWanStep(init: seq<Line>, l: Line, before: seq<string>, after: seq<string>)
    ensures (if l.WanInterface? then after == [l.name] else LastWan(init, before, after)) ==>
              LastWan(init + [l], before, after)
  {
    var ls := init + [l];
    assert l in ls && ls[|init|] == l && forall x <- init :: x in ls;
    if i :| 0 <= i < |init| && init[i].WanInterface? && after == [init[i].name]
            && forall j :: i < j < |init| ==> !init[j].WanInterface?
    {
      assert ls[i] == init[i];
    }
  }

  lemma AllListed(p: Printer, dns: Dns, ls: seq<Line>, s: Spec)
    ensures s in AllSpecs(p, dns, ls) <==> Lists(p, dns, ls, s)
  {
    hide ConfigCanonical;
    FlatMapMember(ls, SpecsOf, s);
    forall l: Line | l.Targets? ensures s in SpecsOf(l) <==> exists i <- l.items :: i == Literal(s) {
      FlatMapMember(l.items, LiteralOf, s);
    }
    var pending := FlatMap(ls, PendingOf);
    FlatMapMember(pending, Resolutions(p, dns), s);
    forall i: Item ensures s in Resolutions(p, dns)(i)
                     <==> i.Named? && i.port == s.port && ConfigCanonical(i.domain) in dns
                          && exists a <- dns[ConfigCanonical(i.domain)] :: p.host(a) == s.cidr
    {
      if i.Named? && ConfigCanonical(i.domain) in dns {
        FlatMapMember(dns[ConfigCanonical(i.domain)], (a: Addr) => [Spec(p.host(a), i.port)], s);
      }
    }
    forall i: Item { PendingItem(ls, i); }
  }

  /** In the order listed: one more entry at the end of a file is appended, unless it is there. */
  lemma OneMoreEntry(p: Printer, c: Settings, ls: seq<Line>, nets: seq<Cidr>, net: Cidr, servers: seq<Addr>, a: Addr,
                     key: string)
    requires key != "" && ConfigCanonical(key) == key
    ensures var d, e := Merged(p, c, ls + [Blacklist(nets)]), Merged(p, c, ls + [Blacklist(nets + [net])]);
            e.blacklist == if net in d.blacklist then d.blacklist else d.blacklist + [net]
    ensures Merged(p, c, ls + [Blacklist([])]).blacklist == Merged(p, c, ls).blacklist
    ensures var d, e := Merged(p, c, ls + [DnsServers(servers)]), Merged(p, c, ls + [DnsServers(servers + [a])]);
            e.lanDnsServers == if a in d.lanDnsServers then d.lanDnsServers else d.lanDnsServers + [a]
    ensures var d := AddressesOf(Merged(p, c, ls).localDns, key);
            Merged(p, c, ls + [Records([Record(key, [a])])]).localDns
            == Merged(p, c, ls).localDns[key := if a in d then d else d + [a]]
  {
    hide Extend, AddTargets, ConfigCanonical, PutRecords;
    FlatMapConcat(ls, [Blacklist(nets)], NetsOf);
    FlatMapConcat(ls, [Blacklist(nets + [net])], NetsOf);
    FlatMapConcat(ls, [Blacklist([])], NetsOf);
    FlatMapConcat(ls, [DnsServers(servers)], ServersOf);
    FlatMapConcat(ls, [DnsServers(servers + [a])], ServersOf);
    FlatMapConcat(ls, [Records([Record(key, [a])])], RecordsOf);
    OneLine(Blacklist(nets));
    OneLine(Blacklist(nets + [net]));
    OneLine(Blacklist([]));
    OneLine(DnsServers(servers));
    OneLine(DnsServers(servers + [a]));
    OneLine(Records([Record(key, [a])]));
    var ns, ss, rs := FlatMap(ls, NetsOf), FlatMap(ls, ServersOf), FlatMap(ls, RecordsOf);
    assert ns + (nets + [net]) == (ns + nets) + [net] && ns + [] == ns;
    assert ss + (servers + [a]) == (ss + servers) + [a];
    ExtendStep(c.blacklist, ns + nets, net);
    ExtendStep(c.lanDnsServers, ss + servers, a);
    OneRecord(c.localDns, rs, key, a);
  }

  /** Likewise for targets, in a file that names no host: one more subnet gives one more target at the
      end, unless there is one. */
  lemma OneMoreTarget(p: Printer, c: Settings, ls: seq<Line>, specs: seq<Spec>, s: Spec)
    requires forall l <- ls :: l.Targets? ==> forall i <- l.items :: i.Literal?
    ensures var d, e := Merged(p, c, ls + [Subnets(specs)]), Merged(p, c, ls + [Subnets(specs + [s])]);
            e.targets == if exists t <- d.targets :: t.cidr == s.cidr && t.port == s.port then d.targets
                         else d.targets + [TargetConfig(p.name(s), s.cidr, s.port, ViaOf(ls), FallbackOf(ls))]
  {
    hide Extend, PutRecords, FlatMap;
    var a, b := ls + [Subnets(specs)], ls + [Subnets(specs + [s])];
    NothingWaits(ls, Subnets(specs));
    NothingWaits(ls, Subnets(specs + [s]));
    FlatMapConcat(ls, [Subnets(specs)], SpecsOf);
    FlatMapConcat(ls, [Subnets(specs + [s])], SpecsOf);
    OneSubnetLine(specs);
    OneSubnetLine(specs + [s]);
    var all := FlatMap(ls, SpecsOf) + specs;
    assert FlatMap(ls, SpecsOf) + (specs + [s]) == all + [s];
    assert a[..|a| - 1] == ls && b[..|b| - 1] == ls;
    assert AllSpecs(p, MergedDns(c, a), a) == all && AllSpecs(p, MergedDns(c, b), b) == all + [s] by {
      assert all + [] == all && (all + [s]) + [] == all + [s];
      NoneWaiting(p, MergedDns(c, a));
      NoneWaiting(p, MergedDns(c, b));
    }
    assert (all + [s])[..|all|] == all;
  }

  /** The file lists this CIDR text and port as such. */
  ghost predicate Direct(ls: seq<Line>, s: Spec) {
    || (exists l <- ls :: l.Targets? && exists i <- l.items :: i == Literal(s))
    || (exists l <- ls :: l.Subnets? && s in l.specs)
  }

  /** Among the new targets those of resolved host names come last. */
  lemma ResolvedComeLast(p: Printer, c: Settings, ls: seq<Line>, i: nat, j: nat)
    requires var ts := Merged(p, c, ls).targets;
             && |c.targets| <= i < j < |ts| && Direct(ls, Spec(ts[j].cidr, ts[j].port))
    ensures var t := Merged(p, c, ls).targets[i]; Direct(ls, Spec(t.cidr, t.port))
  {
    hide Direct, FlatMap, AddTargets, Extend, PutRecords;
    var direct := FlatMap(ls, SpecsOf);
    var later := FlatMap(FlatMap(ls, PendingOf), Resolutions(p, MergedDns(c, ls)));
    var ts := Merged(p, c, ls).targets;
    LaterAreNew(p, c.targets, direct, later, ViaOf(ls), FallbackOf(ls));
    forall s: Spec { DirectMember(ls, s); }
    NewAt(p, c.targets, direct, ViaOf(ls), FallbackOf(ls), i);
  }

  lemma DirectMember(ls: seq<Line>, s: Spec)
    ensures s in FlatMap(ls, SpecsOf) <==> Direct(ls, s)
  {
    FlatMapMember(ls, SpecsOf, s);
    forall l: Line | l.Targets? ensures s in SpecsOf(l) <==> exists i <- l.items :: i == Literal(s) {
      FlatMapMember(l.items, LiteralOf, s);
    }
  }

  lemma {:induction false} LaterAreNew(p: Printer, ts: seq<TargetConfig>, a: seq<Spec>, b: seq<Spec>, via: seq<string>,
                                       fallback: string)
    ensures var before, all := AddTargets(p, ts, a, via, fallback), AddTargets(p, ts, a + b, via, fallback);
            before <= all && forall k :: |before| <= k < |all| ==> Spec(all[k].cidr, all[k].port) !in a
  {
    if b == [] {
      assert a + b == a;
    } else {
      var init := b[..|b| - 1];
      LaterAreNew(p, ts, a, init, via, fallback);
      assert (a + b)[..|a + b| - 1] == a + init;
      var all, s := AddTargets(p, ts, a + init, via, fallback), b[|b| - 1];
      forall x | x in a ensures HasTarget(all, x) { assert x in a + init; }
    }
  }

  lemma {:induction false} NewAt(p: Printer, ts: seq<TargetConfig>, specs: seq<Spec>, via: seq<string>,
                                 fallback: string, i: nat)
    requires |ts| <= i
    ensures var all := AddTargets(p, ts, specs, via, fallback);
            i < |all| ==> Spec(all[i].cidr, all[i].port) in specs
  {
    if specs != [] {
      NewAt(p, ts, specs[..|specs| - 1], via, fallback, i);
      assert specs == specs[..|specs| - 1] + [specs[|specs| - 1]];
    }
  }

  lemma OneSubnetLine(specs: seq<Spec>)
    ensures FlatMap([Subnets(specs)], SpecsOf) == specs
  {
    assert [Subnets(specs)][..0] == [];
  }

  lemma NoneWaiting(p: Printer, dns: Dns)
    ensures FlatMap([], Resolutions(p, dns)) == []
  {
  }

  lemma NothingWaits(ls: seq<Line>, l: Line)
    requires (forall x <- ls :: x.Targets? ==> forall i <- x.items :: i.Literal?) && l.Subnets?
    ensures FlatMap(ls + [l], PendingOf) == []
  {
    var pending := FlatMap(ls + [l], PendingOf);
    if pending != [] { PendingItem(ls + [l], pending[0]); }
  }

  lemma OneLine(l: Line)
    ensures FlatMap([l], NetsOf) == NetsOf(l) && FlatMap([l], ServersOf) == ServersOf(l)
    ensures FlatMap([l], RecordsOf) == RecordsOf(l)
  {
    assert [l][..0] == [];
  }

  lemma OneRecord(dns: Dns, rs: seq<Record>, key: string, a: Addr)
    requires key != "" && ConfigCanonical(key) == key
    ensures var have := AddressesOf(PutRecords(dns, rs), key);
            PutRecords(dns, rs + [Record(key, [a])])
            == PutRecords(dns, rs)[key := if a in have then have else have + [a]]
  {
    hide ConfigCanonical;
    assert (rs + [Record(key, [a])])[..|rs|] == rs;
    ExtendStep(AddressesOf(PutRecords(dns, rs), key), [], a);
    assert [] + [a] == [a];
  }

  // ---------------------------------------------------------------- the merge in place

  /** What the pass over the lines only collects. */
  datatype Pass = Pass(specs: seq<Spec>, pending: seq<Item>, via: seq<string>, wan: Option<string>, fallback: string)

  function PassOver(ls: seq<Line>): Pass {
    Pass(FlatMap(ls, SpecsOf), FlatMap(ls, PendingOf), ViaOf(ls), WanOfLines(ls), FallbackOf(ls))
  }

  function NextPass(s: Pass, l: Line): Pass {
    Pass(s.specs + SpecsOf(l), s.pending + PendingOf(l), if l.TargetInterface? then l.names else s.via,
         if l.WanInterface? then Some(l.name) else s.wan, if l.Fallback? then l.word else s.fallback)
  }

  class ConfigRecord {
    const base: Settings
    var wanInterfaces: seq<string>
    var targets: seq<TargetConfig>
    var blacklist: seq<Cidr>
    var localDns: Dns
    var lanDomains: seq<string>
    var lanDnsServers: seq<Addr>
    var lanInterfaces: seq<string>

    function View(): Settings
      reads this
    {
      base.(wanInterfaces := wanInterfaces, targets := targets, blacklist := blacklist, localDns := localDns,
            lanDomains := lanDomains, lanDnsServers := lanDnsServers, lanInterfaces := lanInterfaces)
    }

    constructor (c: Settings)
      ensures View() == c
    {
      base := c;
      wanInterfaces, targets, blacklist, localDns := c.wanInterfaces, c.targets, c.blacklist, c.localDns;
      lanDomains, lanDnsServers, lanInterfaces := c.lanDomains, c.lanDnsServers, c.lanInterfaces;
    }

    /** `push_lan_domain` */
    method PushLanDomain(domain: string)
      modifies `lanDomains
      ensures lanDomains == Extend(old(lanDomains), Canonical(domain))
    {
      var d := ConfigCanonical(domain);
      ExtendStep(lanDomains, [], d);
      if d != "" && d !in lanDomains { lanDomains := lanDomains + [d]; }
    }

    method PushLanDomains(names: seq<string>)
      modifies `lanDomains
      ensures lanDomains == Extend(old(lanDomains), FlatMap(names, Canonical))
    {
      FullSlice(names);
      for i := 0 to |names|
        invariant lanDomains == Extend(old(lanDomains), FlatMap(names[..i], Canonical))
      {
        FlatMapStep(names, Canonical, i);
        ExtendMore(old(lanDomains), FlatMap(names[..i], Canonical), Canonical(names[i]));
        PushLanDomain(names[i]);
      }
    }

    method PutRecordLine(rs: seq<Record>)
      modifies `localDns
      ensures localDns == PutRecords(old(localDns), rs)
    {
      hide Extend;
      FullSlice(rs);
      for i := 0 to |rs|
        invariant localDns == PutRecords(old(localDns), rs[..i])
      {
        RecordStep(old(localDns), rs, i);
        var key := ConfigCanonical(rs[i].name);
        if key == "" { continue; }
        MergeRecord(key, rs[i].addrs);
      }
    }

    method MergeRecord(key: string, addrs: seq<Addr>)
      modifies `localDns
      ensures localDns == old(localDns)[key := Extend(AddressesOf(old(localDns), key), addrs)]
    {
      var entry := AddressesOf(localDns, key);
      entry := PushNew(entry, addrs);
      localDns := localDns[key := entry];
    }

    method TakeLine(l: Line, s: Pass) returns (r: Pass)
      modifies `blacklist, `lanDnsServers, `lanDomains, `localDns
      ensures r == NextPass(s, l)
      ensures blacklist == Extend(old(blacklist), NetsOf(l))
      ensures lanDnsServers == Extend(old(lanDnsServers), ServersOf(l))
      ensures lanDomains == Extend(old(lanDomains), DomainsOf(l))
      ensures localDns == PutRecords(old(localDns), RecordsOf(l))
    {
      hide Extend, FlatMap, ConfigCanonical;
      r := s;
      ExtendHeld(blacklist, []);
      ExtendHeld(lanDnsServers, []);
      ExtendHeld(lanDomains, []);
      match l {
        case Targets(items) =>
          var found, waiting := SplitItems(items);
          r := s.(specs := s.specs + found, pending := s.pending + waiting);
        case Subnets(more) => r := s.(specs := s.specs + more);
        case TargetInterface(names) => r := s.(via := names);
        case WanInterface(name) => r := s.(wan := Some(name));
        case Fallback(word) => r := s.(fallback := word);
        case Blacklist(nets) => blacklist := PushNew(blacklist, nets);
        case Records(records) => PutRecordLine(records);
        case LanDomains(names) => PushLanDomains(names);
        case DnsServers(servers) => lanDnsServers := PushNew(lanDnsServers, servers);
      }
    }

    method TakeLines(ls: seq<Line>) returns (s: Pass)
      modifies `blacklist, `lanDnsServers, `lanDomains, `localDns
      ensures s == PassOver(ls)
      ensures blacklist == Extend(old(blacklist), FlatMap(ls, NetsOf))
      ensures lanDnsServers == Extend(old(lanDnsServers), FlatMap(ls, ServersOf))
      ensures lanDomains == Extend(old(lanDomains), FlatMap(ls, DomainsOf))
      ensures localDns == PutRecords(old(localDns), FlatMap(ls, RecordsOf))
    {
      hide Extend, NetsOf, ServersOf, DomainsOf, RecordsOf, SpecsOf, PendingOf;
      s := Pass([], [], [], None, "drop");
      FullSlice(ls);
      ExtendHeld(blacklist, []);
      ExtendHeld(lanDnsServers, []);
      ExtendHeld(lanDomains, []);
      for i := 0 to |ls|
        invariant s == PassOver(ls[..i])
        invariant blacklist == Extend(old(blacklist), FlatMap(ls[..i], NetsOf))
        invariant lanDnsServers == Extend(old(lanDnsServers), FlatMap(ls[..i], ServersOf))
        invariant lanDomains == Extend(old(lanDomains), FlatMap(ls[..i], DomainsOf))
        invariant localDns == PutRecords(old(localDns), FlatMap(ls[..i], RecordsOf))
      {
        var l := ls[i];
        LineStep(ls, i);
        ExtendMore(old(blacklist), FlatMap(ls[..i], NetsOf), NetsOf(l));
        ExtendMore(old(lanDnsServers), FlatMap(ls[..i], ServersOf), ServersOf(l));
        ExtendMore(old(lanDomains), FlatMap(ls[..i], DomainsOf), DomainsOf(l));
        RecordsMore(old(localDns), FlatMap(ls[..i], RecordsOf), RecordsOf(l));
        s := TakeLine(l, s);
      }
    }

    /** One pass over the lines, then what had to wait for all of them. */
    method ApplyEnv(p: Printer, ls: seq<Line>)
      modifies this
      ensures View() == Merged(p, old(View()), ls)
    {
      hide Extend, AddTargets, FlatMap, PutRecords;
      var s := TakeLines(ls);
      if s.wan.Some? { wanInterfaces := [s.wan.value]; }
      if s.via != [] { lanInterfaces := s.via; }
      var resolved := ResolvePending(p, s.pending);
      PushTargets(p, s.specs + resolved, s.via, s.fallback);
    }

    /** Host names among the targets: allowed as LAN domains, and routed where they resolve. */
    method ResolvePending(p: Printer, pending: seq<Item>) returns (specs: seq<Spec>)
      modifies `lanDomains
      ensures lanDomains == Extend(old(lanDomains), FlatMap(pending, PendingName))
      ensures specs == FlatMap(pending, Resolutions(p, localDns))
    {
      hide Extend;
      specs := [];
      ExtendHeld(lanDomains, []);
      FullSlice(pending);
      for i := 0 to |pending|
        invariant lanDomains == Extend(old(lanDomains), FlatMap(pending[..i], PendingName))
        invariant specs == FlatMap(pending[..i], Resolutions(p, localDns))
      {
        FlatMapStep(pending, PendingName, i);
        FlatMapStep(pending, Resolutions(p, localDns), i);
        ExtendMore(old(lanDomains), FlatMap(pending[..i], PendingName), PendingName(pending[i]));
        if pending[i].Named? {
          PushLanDomain(pending[i].domain);
          var key := ConfigCanonical(pending[i].domain);
          if key in localDns {
            var more := HostSpecs(p, localDns[key], pending[i].port);
            specs := specs + more;
          }
        } else {
          ExtendHeld(lanDomains, []);
        }
      }
    }

    method PushTargets(p: Printer, specs: seq<Spec>, via: seq<string>, fallback: string)
      modifies `targets
      ensures targets == AddTargets(p, old(targets), specs, via, fallback)
    {
      FullSlice(specs);
      for i := 0 to |specs|
        invariant targets == AddTargets(p, old(targets), specs[..i], via, fallback)
      {
        assert specs[..i + 1][..i] == specs[..i];
        var s := specs[i];
        if !HasTarget(targets, s) {
          targets := targets + [TargetConfig(p.name(s), s.cidr, s.port, via, fallback)];
        }
      }
    }
  }

  method HostSpecs(p: Printer, ips: seq<Addr>, port: Option<nat>) returns (specs: seq<Spec>)
    ensures specs == FlatMap(ips, (a: Addr) => [Spec(p.host(a), port)])
  {
    specs := [];
    ghost var f := (a: Addr) => [Spec(p.host(a), port)];
    FullSlice(ips);
    for i := 0 to |ips|
      invariant specs == FlatMap(ips[..i], f)
    {
      FlatMapStep(ips, f, i);
      specs := specs + [Spec(p.host(ips[i]), port)];
    }
  }

  method SplitItems(items: seq<Item>) returns (found: seq<Spec>, waiting: seq<Item>)
    ensures found == FlatMap(items, LiteralOf) && waiting == FlatMap(items, NamedOf)
  {
    found, waiting := [], [];
    FullSlice(items);
    for i := 0 to |items|
      invariant found == FlatMap(items[..i], LiteralOf) && waiting == FlatMap(items[..i], NamedOf)
    {
      FlatMapStep(items, LiteralOf, i);
      FlatMapStep(items, NamedOf, i);
      if items[i].Literal? { found := found + [items[i].spec]; } else { waiting := waiting + [items[i]]; }
    }
  }

  method PushNew<A(==)>(xs: seq<A>, ys: seq<A>) returns (r: seq<A>)
    ensures r == Extend(xs, ys)
  {
    r := xs;
    FullSlice(ys);
    for i := 0 to |ys|
      invariant r == Extend(xs, ys[..i])
    {
      assert ys[..i + 1] == ys[..i] + [ys[i]];
      ExtendStep(xs, ys[..i], ys[i]);
      if ys[i] !in r { r := r + [ys[i]]; }
    }
  }

  lemma {:induction false} ExtendMore<A>(xs: seq<A>, ys: seq<A>, zs: seq<A>)
    ensures Extend(xs, ys + zs) == Extend(Extend(xs, ys), zs)
  {
    if zs == [] {
      assert ys + zs == ys;
    } else {
      var init, z := zs[..|zs| - 1], zs[|zs| - 1];
      ExtendMore(xs, ys, init);
      assert ys + zs == (ys + init) + [z] && zs == init + [z];
      ExtendStep(xs, ys + init, z);
      ExtendStep(Extend(xs, ys), init, z);
    }
  }

  lemma RecordStep(dns: Dns, rs: seq<Record>, i: nat)
    requires i < |rs|
    ensures PutRecords(dns, rs[..i + 1]) == PutRecord(PutRecords(dns, rs[..i]), rs[i])
  {
    assert rs[..i + 1][..i] == rs[..i];
  }

  lemma {:induction false} RecordsMore(dns: Dns, rs: seq<Record>, more: seq<Record>)
    ensures PutRecords(dns, rs + more) == PutRecords(PutRecords(dns, rs), more)
  {
    hide PutRecord;
    if more == [] {
      assert rs + more == rs;
    } else {
      RecordsMore(dns, rs, more[..|more| - 1]);
      assert (rs + more)[..|rs + more| - 1] == rs + more[..|more| - 1];
    }
  }

  lemma LineStep(ls: seq<Line>, i: nat)
    requires i < |ls|
    ensures PassOver(ls[..i + 1]) == NextPass(PassOver(ls[..i]), ls[i])
    ensures FlatMap(ls[..i + 1], NetsOf) == FlatMap(ls[..i], NetsOf) + NetsOf(ls[i])
    ensures FlatMap(ls[..i + 1], ServersOf) == FlatMap(ls[..i], ServersOf) + ServersOf(ls[i])
    ensures FlatMap(ls[..i + 1], DomainsOf) == FlatMap(ls[..i], DomainsOf) + DomainsOf(ls[i])
    ensures FlatMap(ls[..i + 1], RecordsOf) == FlatMap(ls[..i], RecordsOf) + RecordsOf(ls[i])
  {
    assert ls[..i + 1][..i] == ls[..i];
    FlatMapStep(ls, SpecsOf, i);
    FlatMapStep(ls, PendingOf, i);
    FlatMapStep(ls, NetsOf, i);
    FlatMapStep(ls, ServersOf, i);
    FlatMapStep(ls, DomainsOf, i);
    FlatMapStep(ls, RecordsOf, i);
  }
}
