/** The values the crates exchange: routes, rules, matchers, decisions, state records. */
module Model {
  import opened Net

  datatype Option<+T> = None | Some(value: T)

  datatype Result<+T, +E> = Ok(value: T) | Err(error: E)

  datatype RouteType = Unicast | Unreachable | Blackhole

  datatype Route = Route(
    destination: Cidr,
    outputInterface: string,
    gateway: Option<Addr>,
    table: nat,
    metric: Option<nat>,
    routeType: RouteType)

  datatype RpdbRule = RpdbRule(priority: nat, table: nat)

  datatype TargetMatcher =
    | HostIp(ip: Addr)
    | CidrNet(net: Cidr)
    | Domain(name: string)
    | DomainSuffix(suffix: string)

  datatype RuleSource =
    | ManualExact | ManualDomain | ManualCidr | ManualSuffix | AutoDiscovered | WanDefault

  datatype FallbackAction = FallDrop | FallWan | FallUnreachable

  datatype HealthState = Unknown | Healthy | Degraded | Down | Recovering

  /** A firewall allowance: interface, target text as the IP-network parser reads it
      (None when the text has no prefix length), optional port. */
  datatype Allowance = Allowance(iface: string, net: Option<Cidr>, port: Option<nat>)

  datatype DesiredState = DesiredState(
    routes: seq<Route>,
    rules: seq<RpdbRule>,
    firewallWhitelist: seq<Allowance>,
    wanInterface: Option<string>,
    lanInterfaces: seq<string>,
    blacklist: seq<Cidr>)

  datatype StateDiff = StateDiff(
    routesToAdd: seq<Route>,
    routesToRemove: seq<Route>,
    rulesToAdd: seq<RpdbRule>,
    rulesToRemove: seq<RpdbRule>)
  {
    predicate IsEmpty() {
      && routesToAdd == [] && routesToRemove == []
      && rulesToAdd == [] && rulesToRemove == []
    }
  }
}
