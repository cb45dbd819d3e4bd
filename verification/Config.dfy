/** The configuration record, the target classifier, and the strict LAN/WLAN profile. */
module Config {
  import opened Net
  import opened Model
  import opened Text

  /** How the IP-address library reads a text.  SpecText is a URL or host:port whose host is
      numeric; BadNet holds a slash but is no network. */
  datatype Numeric =
    | NotNumeric
    | IpText(ip: Addr)
    | NetText(net: Cidr)
    | SpecText(spec: Cidr)
    | BadNet

  /** The library itself is a parameter. */
  type Reader = string -> Numeric

  /** Texts the library accepts as an address or a network hold no surrounding blanks. */
  ghost predicate ReaderOk(rd: Reader) {
    forall s :: (rd(s).IpText? || rd(s).NetText?) ==> Trim(s) == s && s != ""
  }

  datatype OperatingMode = Auto | Manual | Hybrid

  datatype TargetConfig = TargetConfig(
    name: string, cidr: string, port: Option<nat>, via: seq<string>, fallback: string)

  datatype NetworkConfig = NetworkConfig(
    name: string, interfaces: seq<string>, autoSubnets: bool,
    preferred: seq<string>, domains: seq<string>, dns: seq<Addr>)

  datatype Settings = Settings(
    mode: OperatingMode,
    unknownPolicy: string,
    labFailure: string,
    tableId: nat,
    rulePriority: nat,
    wanInterfaces: seq<string>,
    networks: seq<NetworkConfig>,
    targets: seq<TargetConfig>,
    blacklist: seq<Cidr>,
    localDns: map<string, seq<Addr>>,
    lanDomains: seq<string>,
    lanDnsServers: seq<Addr>,
    lanInterfaces: seq<string>)

  // ---------------------------------------------------------------- classifier

  function MatcherOfNet(net: Cidr): TargetMatcher {
    if net.prefix == Width(net.addr.fam) then HostIp(net.addr) else CidrNet(net)
  }

  /** `TargetClassifier::parse`. */
  function Classify(rd: Reader, text: string): Option<TargetMatcher> {
    var t := Trim(text);
    if t == "" then None else
    match rd(t)
    case SpecText(net) => Some(MatcherOfNet(net))
    case IpText(ip) => Some(HostIp(ip))
    case NetText(net) => Some(MatcherOfNet(net))
    case BadNet => None
    case NotNumeric =>
      if |t| >= 2 && t[0] == '*' && t[1] == '.' then Some(DomainSuffix(Lower(t[1..])))
      else if t[0] == '~' then
        var rest := TrimTildes(t);
        Some(DomainSuffix(Lower(if rest != "" && rest[0] == '.' then rest else "." + rest)))
      else if t[0] == '.' then Some(DomainSuffix(Lower(t)))
      else Some(Domain(Lower(t)))
  }

  /** Suffix matchers always keep a leading dot. */
  lemma SuffixKeepsDot(rd: Reader, text: string)
    ensures var m := Classify(rd, text);
            m.Some? && m.value.DomainSuffix? ==> m.value.suffix != "" && m.value.suffix[0] == '.'
  {
    var t := Trim(text);
    if t != "" && t[0] == '~' {
      var rest := TrimTildes(t);
      var dotted := if rest != "" && rest[0] == '.' then rest else "." + rest;
      assert Lower(dotted)[0] == LowerChar('.') == '.';
    }
  }

  /** The three ways to write a suffix say the same: `*.lab`, `~lab` and `.lab`. */
  lemma SuffixForms(rd: Reader, name: string)
    requires PlainName(name)
    requires rd("*." + name).NotNumeric? && rd("~" + name).NotNumeric? && rd("." + name).NotNumeric?
    ensures Classify(rd, "*." + name) == Some(DomainSuffix("." + Lower(name)))
    ensures Classify(rd, "~" + name) == Some(DomainSuffix("." + Lower(name)))
    ensures Classify(rd, "." + name) == Some(DomainSuffix("." + Lower(name)))
  {
    var star, tilde, dot := "*." + name, "~" + name, "." + name;
    assert Trim(star) == star && Trim(tilde) == tilde && Trim(dot) == dot;
    assert star[1..] == dot && tilde[1..] == name;
    assert TrimTildes(tilde) == TrimTildes(name) == name;
    assert Lower(dot) == "." + Lower(name);
  }

  /** What a numeric text is: one address a host, a full-length network its address, any other
      network itself; the parsers for networks take no port, and the firewall's no bare address. */
  lemma NumericForms(rd: Reader, text: string)
    requires text != "" && Trim(text) == text
    ensures forall ip :: rd(text) == IpText(ip) ==>
              && Classify(rd, text) == Some(HostIp(ip)) && ParseNetOnly(rd, text) == None
              && ParseIpNet(rd, text) == Some(RawCidr(ip, if ip.fam == V4 then 32 else 128))
    ensures forall net :: rd(text) == NetText(net) || rd(text) == SpecText(net) ==>
              Classify(rd, text)
              == Some(if net.prefix == (if net.addr.fam == V4 then 32 else 128) then HostIp(net.addr) else CidrNet(net))
    ensures forall net :: rd(text) == NetText(net) ==> ParseIpNet(rd, text) == Some(net) == ParseNetOnly(rd, text)
    ensures rd(text).SpecText? || rd(text).NotNumeric? || rd(text).BadNet? ==>
              ParseIpNet(rd, text) == None == ParseNetOnly(rd, text)
    ensures rd(text).BadNet? ==> Classify(rd, text) == None
  {
  }

  /** `parse_ip_net`: a network, or one address as a host-length network. */
  function ParseIpNet(rd: Reader, raw: string): Option<Cidr> {
    match rd(raw)
    case NetText(net) => Some(net)
    case IpText(ip) => Some(HostNet(ip))
    case _ => None
  }

  /** Parsing as `IpNet` alone, as the firewall does: an address without a prefix fails. */
  function ParseNetOnly(rd: Reader, raw: string): Option<Cidr> {
    match rd(Trim(raw))
    case NetText(net) => Some(net)
    case _ => None
  }

  // ---------------------------------------------------------------- names

  /** `canonical_domain` of the configuration. */
  function ConfigCanonical(name: string): string {
    Lower(TrimDots(Trim(name)))
  }

  /** `canonical_domain` of the policy engine, which also strips routing-domain markers. */
  function PolicyCanonical(name: string): string {
    Lower(TrimDots(TrimStars(TrimTildes(Trim(name)))))
  }

  /** What the two canonical forms forget: capitals and trailing dots, and the policy engine's also
      the routing-domain markers.  A plain name in small letters without a trailing dot is its own. */
  lemma CanonicalForgets(name: string)
    requires PlainName(name)
    ensures name[|name| - 1] != '.' ==> ConfigCanonical(name) == Lower(name) == PolicyCanonical(name)
    ensures ConfigCanonical(name + ".") == ConfigCanonical(name) == ConfigCanonical(Lower(name))
    ensures PolicyCanonical("~" + name) == PolicyCanonical("*." + name) == PolicyCanonical(name)
    ensures ConfigCanonical(" NAS.Lab. ") == "nas.lab"
  {
    var dotted, tilde, star, low := name + ".", "~" + name, "*." + name, Lower(name);
    assert Trim(name) == name && Trim(dotted) == dotted && Trim(tilde) == tilde && Trim(star) == star;
    assert dotted[..|dotted| - 1] == name && tilde[1..] == name && star[2..] == name;
    LowerKeepsMarks(name[0]);
    LowerKeepsMarks(name[|name| - 1]);
    assert low[0] == LowerChar(name[0]) && low[|low| - 1] == LowerChar(name[|name| - 1]);
    assert Trim(low) == low;
    TrimDotsLower(name);
    LowerIdempotent(TrimDots(name));
    assert TrimTildes(tilde) == TrimTildes(name) == name && TrimStars(star) == TrimStars(name) == name;
    assert TrimTildes(star) == star;
    TrimExample();
  }

  lemma TrimExample()
    ensures ConfigCanonical(" NAS.Lab. ") == "nas.lab"
  {
    var s := " NAS.Lab. ";
    assert s[1..] == "NAS.Lab. " && TrimLeft(s) == TrimLeft("NAS.Lab. ") == "NAS.Lab. ";
    assert "NAS.Lab. "[..8] == "NAS.Lab." && TrimRight("NAS.Lab. ") == TrimRight("NAS.Lab.") == "NAS.Lab.";
    assert "NAS.Lab."[..7] == "NAS.Lab" && TrimDots("NAS.Lab.") == TrimDots("NAS.Lab") == "NAS.Lab";
    assert Lower("NAS.Lab") == "nas.lab";
  }

  function Resolve(c: Settings, name: string): Option<seq<Addr>> {
    var key := ConfigCanonical(name);
    if key in c.localDns then Some(c.localDns[key]) else None
  }

  /** For a plain host name the two canonical forms agree, even after classification. */
  lemma CanonicalFormsAgree(rd: Reader, name: string)
    requires PlainName(name) && rd(name).NotNumeric?
    ensures Classify(rd, name) == Some(Domain(Lower(name)))
    ensures PolicyCanonical(Lower(name)) == ConfigCanonical(name)
  {
    assert Trim(name) == name;
    var low := Lower(name);
    LowerKeepsMarks(name[0]);
    LowerKeepsMarks(name[|name| - 1]);
    assert low[0] == LowerChar(name[0]) && low[|low| - 1] == LowerChar(name[|name| - 1]);
    assert Trim(low) == low && TrimTildes(low) == low && TrimStars(low) == low;
    TrimDotsLower(name);
    LowerIdempotent(TrimDots(name));
  }

  // ---------------------------------------------------------------- strict profile

  predicate SameWord(a: string, b: string) {
    Lower(a) == Lower(b)
  }

  predicate TargetStrict(rd: Reader, c: Settings, t: TargetConfig) {
    && SameWord(t.fallback, "drop")
    && t.via != []
    && (forall i <- t.via :: i in c.lanInterfaces)
    && ParseIpNet(rd, t.cidr).Some?
    && (forall b <- c.blacklist :: !Overlap(b, ParseIpNet(rd, t.cidr).value))
  }

  predicate DomainStrict(c: Settings, d: string) {
    && Resolve(c, d).Some?
    && (forall a <- Resolve(c, d).value, b <- c.blacklist :: !Contains(b, a))
  }

  /** What `validate_strict_lan_policy` accepts. */
  predicate Strict(rd: Reader, c: Settings) {
    && c.mode == Manual
    && SameWord(c.unknownPolicy, "wan")
    && SameWord(c.labFailure, "drop")
    && |c.wanInterfaces| == 1 && Trim(c.wanInterfaces[0]) != "" && c.wanInterfaces[0] != "auto"
    && (forall n <- c.networks :: !n.autoSubnets)
    && (c.targets != [] || c.lanDomains != [] ==> c.lanInterfaces != [])
    && (forall t <- c.targets :: TargetStrict(rd, c, t))
    && (forall d <- c.lanDomains :: DomainStrict(c, d))
  }

  datatype Violation =
    | BadMode | BadUnknown | BadLabFailure | BadWan | AutoSubnets | NoLanInterface
    | BadFallback(t: TargetConfig) | NoVia(t: TargetConfig) | ForeignVia(t: TargetConfig)
    | NotAnIp(t: TargetConfig) | TargetBlacklisted(t: TargetConfig, blocked: Cidr)
    | NoRecord(domain: string) | DomainBlacklisted(domain: string, addr: Addr, blocked: Cidr)

  /** The complaint is justified by the configuration. */
  predicate Justified(rd: Reader, c: Settings, v: Violation) {
    match v
    case BadMode => c.mode != Manual
    case BadUnknown => !SameWord(c.unknownPolicy, "wan")
    case BadLabFailure => !SameWord(c.labFailure, "drop")
    case BadWan => |c.wanInterfaces| == 1 ==> Trim(c.wanInterfaces[0]) == "" || c.wanInterfaces[0] == "auto"
    case AutoSubnets => exists n <- c.networks :: n.autoSubnets
    case NoLanInterface => (c.targets != [] || c.lanDomains != []) && c.lanInterfaces == []
    case BadFallback(t) => t in c.targets && !SameWord(t.fallback, "drop")
    case NoVia(t) => t in c.targets && t.via == []
    case ForeignVia(t) => t in c.targets && exists i <- t.via :: i !in c.lanInterfaces
    case NotAnIp(t) => t in c.targets && ParseIpNet(rd, t.cidr).None?
    case TargetBlacklisted(t, b) =>
      && t in c.targets && b in c.blacklist && ParseIpNet(rd, t.cidr).Some?
      && Overlap(b, ParseIpNet(rd, t.cidr).value)
    case NoRecord(d) => d in c.lanDomains && Resolve(c, d).None?
    case DomainBlacklisted(d, a, b) =>
      d in c.lanDomains && Resolve(c, d).Some? && a in Resolve(c, d).value && b in c.blacklist && Contains(b, a)
  }

  lemma StrictExactly(rd: Reader, c: Settings)
    ensures Strict(rd, c) <==>
            && c.mode == Manual && Lower(c.unknownPolicy) == "wan" && Lower(c.labFailure) == "drop"
            && |c.wanInterfaces| == 1 && Trim(c.wanInterfaces[0]) != "" && c.wanInterfaces[0] != "auto"
            && (forall n <- c.networks :: !n.autoSubnets)
            && (c.lanInterfaces == [] ==> c.targets == [] && c.lanDomains == [])
            && (forall t <- c.targets ::
                  && Lower(t.fallback) == "drop" && t.via != [] && (forall i <- t.via :: i in c.lanInterfaces)
                  && (rd(t.cidr).NetText? || rd(t.cidr).IpText?)
                  && forall b <- c.blacklist :: !Overlap(b, if rd(t.cidr).NetText? then rd(t.cidr).net
                                                            else HostNet(rd(t.cidr).ip)))
            && (forall d <- c.lanDomains ::
                  && ConfigCanonical(d) in c.localDns
                  && forall a <- c.localDns[ConfigCanonical(d)], b <- c.blacklist :: !Contains(b, a))
  {
  }

  method ValidateTarget(rd: Reader, c: Settings, t: TargetConfig) returns (v: Option<Violation>)
    requires t in c.targets
    ensures v.None? <==> TargetStrict(rd, c, t)
    ensures v.Some? ==> Justified(rd, c, v.value)
  {
    if !SameWord(t.fallback, "drop") { return Some(BadFallback(t)); }
    if t.via == [] { return Some(NoVia(t)); }
    if exists i <- t.via :: i !in c.lanInterfaces { return Some(ForeignVia(t)); }
    var parsed := ParseIpNet(rd, t.cidr);
    if parsed.None? { return Some(NotAnIp(t)); }
    for k := 0 to |c.blacklist|
      invariant forall b <- c.blacklist[..k] :: !Overlap(b, parsed.value)
    {
      if Overlap(c.blacklist[k], parsed.value) { return Some(TargetBlacklisted(t, c.blacklist[k])); }
    }
    return None;
  }

  method ValidateDomain(c: Settings, d: string, rd: Reader) returns (v: Option<Violation>)
    requires d in c.lanDomains
    ensures v.None? <==> DomainStrict(c, d)
    ensures v.Some? ==> Justified(rd, c, v.value)
  {
    var addresses := Resolve(c, d);
    if addresses.None? { return Some(NoRecord(d)); }
    for k := 0 to |addresses.value|
      invariant forall a <- addresses.value[..k], b <- c.blacklist :: !Contains(b, a)
    {
      var address := addresses.value[k];
      for l := 0 to |c.blacklist|
        invariant forall b <- c.blacklist[..l] :: !Contains(b, address)
      {
        if Contains(c.blacklist[l], address) {
          return Some(DomainBlacklisted(d, address, c.blacklist[l]));
        }
      }
    }
    return None;
  }

  /** `validate_strict_lan_policy`: accepts exactly the strict configurations, and every
      refusal names a real offender. */
  method ValidateStrict(rd: Reader, c: Settings) returns (v: Option<Violation>)
    ensures v.None? <==> Strict(rd, c)
    ensures v.None? <==>
            && c.mode == Manual && Lower(c.unknownPolicy) == "wan" && Lower(c.labFailure) == "drop"
            && |c.wanInterfaces| == 1 && Trim(c.wanInterfaces[0]) != "" && c.wanInterfaces[0] != "auto"
            && (forall n <- c.networks :: !n.autoSubnets)
            && (c.lanInterfaces == [] ==> c.targets == [] && c.lanDomains == [])
            && (forall t <- c.targets ::
                  && Lower(t.fallback) == "drop" && t.via != [] && (forall i <- t.via :: i in c.lanInterfaces)
                  && (rd(t.cidr).NetText? || rd(t.cidr).IpText?)
                  && forall b <- c.blacklist :: !Overlap(b, if rd(t.cidr).NetText? then rd(t.cidr).net
                                                            else HostNet(rd(t.cidr).ip)))
            && (forall d <- c.lanDomains ::
                  && ConfigCanonical(d) in c.localDns
                  && forall a <- c.localDns[ConfigCanonical(d)], b <- c.blacklist :: !Contains(b, a))
    ensures v.Some? ==> Justified(rd, c, v.value)
  {
    StrictExactly(rd, c);
    hide TargetStrict, DomainStrict;
    if c.mode != Manual { return Some(BadMode); }
    if !SameWord(c.unknownPolicy, "wan") { return Some(BadUnknown); }
    if !SameWord(c.labFailure, "drop") { return Some(BadLabFailure); }
    if |c.wanInterfaces| != 1 || Trim(c.wanInterfaces[0]) == "" || c.wanInterfaces[0] == "auto" {
      return Some(BadWan);
    }
    if exists n <- c.networks :: n.autoSubnets { return Some(AutoSubnets); }
    if (c.targets != [] || c.lanDomains != []) && c.lanInterfaces == [] { return Some(NoLanInterface); }
    for k := 0 to |c.targets|
      invariant forall t <- c.targets[..k] :: TargetStrict(rd, c, t)
    {
      v := ValidateTarget(rd, c, c.targets[k]);
      if v.Some? { return; }
    }
    for k := 0 to |c.lanDomains|
      invariant forall d <- c.lanDomains[..k] :: DomainStrict(c, d)
    {
      v := ValidateDomain(c, c.lanDomains[k], rd);
      if v.Some? { return; }
    }
    return None;
  }

  predicate NeedsLanDns(c: Settings) {
    exists d <- c.lanDomains :: Resolve(c, d).None?
  }
}
