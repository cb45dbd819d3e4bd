# From LAN policy to kernel state

The repository is a daemon for a host with a trusted WAN and one or more LAN interfaces. A
configuration names LAN targets, LAN host names and a blacklist. The daemon compiles it into
the routes of a private table, guards every LAN interface with an egress chain, applies both
through `ip` and `iptables`, verifies, and commits or rolls back. A probe loop repeats this
whenever an interface becomes available or stops being so.

This project models that pipeline and proves what it guarantees: for every configuration,
health map, address and packet, and for every state a run passes through, whichever command
fails. `dafny verify dfyconfig.toml` checks all of it.

## Structure

| file | source it follows | what it is about |
|---|---|---|
| Net, Seqs, Text, Model | library types | addresses, aligned blocks, containment, sorted names, shared values |
| Config | config.rs, classifier.rs | settings, target classes, the strict LAN/WLAN profile |
| EnvMerge | config.rs | merging an environment file |
| Health | health.rs | the five-state hysteresis and how often it can flap |
| Policy, Decisions | policy.rs | rules, `decide`, compilation into routes; the same said on texts and lists |
| Fib | netlink.rs | kernel tables: replace, delete, longest-prefix lookup |
| Claims | policy.rs, config.rs | what compiled routes claim |
| Agreement | policy.rs | first match against longest prefix |
| Planner, Transaction, Convergence | planner.rs, reconcile.rs | the diff; adds, removes and undo on a table |
| Netfilter, Firewall, Generations | firewall.rs | chains, the A/B generation swap, verdicts during and after it |
| Kernel, Netlink | netlink.rs, firewall.rs | the host, one command at a time, and the operations over it |
| State, Stages, Reconcile | state.rs, reconcile.rs | the ownership record, the stages of a run, the reconciler |
| Failover, Gateways, History | reconcile.rs, daemon.rs | one failover, gateways read anew, and many failovers in a row |
| Orphans | reconcile.rs, daemon.rs | the same above entries that nobody owns |
| Pipeline | daemon.rs | from a strict configuration to packets, routing and filtering together |
| Networks | config.rs, policy.rs | names on networks, and inputs where a promise fails |
| Probes, Daemons | daemon.rs | the probe loop, `execute_apply`, and the daemon's life |

## How to read the model

Addresses are a family and a number below 2^32 or 2^128; a CIDR is a possibly untruncated
address with a prefix length. `Host` holds the policy tables, the RPDB rules, the IPv4 main
table and both packet filters. Each of its methods is one command, which may succeed, exit
with a failure, or not start at all, by its own choice. A failing command changes nothing. The
ghost field `trace` records the state after every command that changed something, so a
statement about all of `trace` is a statement about every intermediate state, including the
one a crash would leave. The ghost field `failed` counts failed commands, so "no command
failed" is `failed == old(failed)`, and `results` says of each command in order whether it
failed, so "the whole rollback succeeded" is a statement about its last entries. The state
store has a counter of its own; `Reconciler.Failures` adds the two.

Objects the source updates in place are classes (`PathHealth`, `Host`, `StateStore`,
`Reconciler`, `Daemon`, `ConfigRecord`) whose methods are tied to functions of their old
state. Loops that push into vectors are methods proved equal to a specification function.

Modelling assumptions:

- `route replace` is keyed by table, truncated destination and metric. Without a metric IPv4
  stores 0 and IPv6 stores 1024; an IPv6 metric of 0 also becomes 1024.
- `route del` removes the matching entry of least metric, matching on table, destination, and
  type or device only. `route show table` and `route flush table` see IPv4 entries only, as
  these commands do without `-6`.
- Adding an RPDB rule that exists already fails; the rules are a set. `ip rule add`, `show` and
  `del` without `-6` work on IPv4 rules only (netlink.rs:397-482), so `Kernel.Consulted` never
  holds of an IPv6 address.
- How the IP library reads a text is a parameter (`Reader`). Strings are ASCII.
- The interfaces and gateways `ip` reports, the clock and the probe answers are parameters.
- A failing write of the state file may leave a file that cannot be read back.
- Longest-prefix match follows RFC 4632 section 5.1 and RFC 1812 section 5.2.4.3.

## What the code does not do

Each of these is a place where the code, its comments or a plausible reading of it promise
more than the code delivers. Each is stated as a lemma, with the exact condition under which
the promise holds where there is one.

- First match and longest prefix disagree exactly when a rule's block lies inside an earlier
  rule's block and some address of it has no still longer rule (`Agreement.AgreementExact`).
- A wildcard or suffix rule decides names but routes nothing: the classifier keeps the leading
  dot and route generation adds another (`Claims.SuffixRuleRoutesNothing`).
- Unless some command fails, a change of gateway alone is never committed: the remove step
  deletes the route just added, and the rollback then restores the old table exactly
  (`Reconcile.GatewayChangeNeverCommits`). The daemon reads the WAN gateway anew on every turn,
  so once it moves while something is blacklisted, no failover is followed any more until it
  moves back: kernel and record stay where they were (`History.TurnFollowsIff`,
  `History.HistoryExactly`, and `History.GatewayStallInput` for a failed interface that keeps
  its traffic). Nor is a change of the table id ever committed, because verification reads the
  old table (`Reconcile.TableChangeNeverCommits`).
- No desired state with an IPv6 route is ever committed, because verification lists IPv4 only
  (`Reconcile.Ipv6NeverCommits`). Where nothing clobbers anything, a run without a failed command commits
  exactly when all desired routes are IPv4 and in the recorded table
  (`Failover.CleanRunCommitsExactly`).
- The flush of `reset`, described in its comment as leaving no orphaned routes, empties the
  table only if it held no IPv6 entry (`Reconcile.FlushEmptiesIff`).
- Applying a diff ends with the desired table exactly when no removal clobbers an addition
  (`Convergence.ApplyExact`). Verification does not notice every clobbering: it passes exactly
  if something with each destination and type is left (`Convergence.ObservedExactly`), which
  after a change of metric alone is the stale route (`Convergence.MetricChangeLeavesStale`).
- Rollback restores the old table but is not make-before-break: halfway, an address is covered
  exactly if some old route over it was neither overwritten nor removed nor named by a deletion
  (`Transaction.RollbackGapExactly`). After a failed verification only what the old and the
  desired routes have in common is covered (`Reconcile.VerificationUndoUncovers`).
- Rollback undoes no RPDB rule: the rules are as before exactly when nothing missing was added
  and nothing present was removed (`Reconcile.RollbackKeepsRulesIff`). Moving a host to another
  table id removes the way into the old table, which the record still owns and the planner
  never adds again (`Reconcile.TableChangeInput`, `Reconcile.TableChangeCutsOff`).
- Deletions that fail are forgotten. After a commit the table holds the desired routes and every
  owned route whose deletion failed (`Reconcile.CommitLeftovers`), and such a leftover decides
  where an address goes exactly if it beats the desired routes (`Reconcile.LeftoverWinsIff`). An
  IPv4 host that was unreachable stays so, verified, committed and owned by nobody
  (`Reconcile.StaleUnreachableInput`).
- No IPv6 address ever gets to the policy table: the tool adds an IPv4 rule only
  (`History.InStepServes`).
- The planner trusts the record: after the rule commands every desired rule is in the kernel if
  and only if those the record owned were there (`Reconcile.DesiredRulesIff`).
- Restoring the WAN after prioritizing it gives the old main table back if and only if no
  metric-50 entry was the WAN's own or made way for a copy (`Netlink.RestoreUndoesExactly`).
- Shutdown is meant to restore system routing (daemon.rs:252-254), but the default routes taken
  off other interfaces do not come back (`Reconcile.LanDefaultLostInput`). From an apply to the
  exit the main table is the old one if and only if no such interface had a default, nothing of
  the devices the reset looks at had metric 50, and no copy displaced anything
  (`Reconcile.ApplyThenReset`, `Reconcile.ShutdownRestoresMain`).
- A start without a state file skips the reset, so what an earlier run left in the policy tables
  stays there, beside what the daemon installs (`Daemons.Daemon.Run`). Such an orphan decides
  where an address goes exactly if it beats the policy's own answer (`Orphans.OrphanDecidesIff`);
  one host route takes a host out of a blacklisted block (`Orphans.OrphanInput`). On a claimed
  block an orphan can even be deleted in place of the daemon's own route
  (`Orphans.ClaimedOrphanInput`). A first apply of the same policy that was interrupted leaves none
  (`Orphans.InterruptedApplyHeals`).
- The comment that a new firewall generation "has first-match precedence" (firewall.rs:195)
  holds unless both generations are hooked at the start and _B is not in front
  (`Generations.PrecedenceExactly`). A run that stops after hooking its chain leaves such a
  state behind (`Generations.InterruptedLeavesBoth`), and then a revoked network stays open
  although the new chain is complete and hooked (`Generations.WaitsBehindOlder`).
- Filling the inactive chain is meant to avoid a fail-open window (firewall.rs:108-110). Every
  state of a run gives the old or the new verdicts exactly if the run was safe to start
  (`Generations.SwapExactly`), that is, unless the chain rebuilt is the hooked one in front and
  the older one behind it says something else (`Generations.SwapSafeExactly`). Flushing it can
  let through what neither the policy in force nor the new one admits
  (`Generations.FlushExposesOlderGeneration`).
- Interface names that differ only in `.` and `-` share chains
  (`Generations.NamesApartExactly`, `Generations.CollisionOpensOther`).
- A target written as a bare address gets a route, but the firewall does not admit it: the
  allow list is parsed as networks (`Networks.BareTargetInput`). A network's domain gets a route
  and no allowance at all. Which routed packets pass is stated exactly
  (`Pipeline.RoutedPacketVerdict`).
- The blacklist is meant to be pinned to the WAN (policy.rs:331-333), but the strict profile does
  not look at the domains of networks. One whose answer is blacklisted is accepted, routed out
  the network's interface, and guarded by no chain (`Networks.BlacklistedNameInput`). The policy
  is served to every address under every health map exactly if, over each address a name covers,
  the name uses LAN interfaces or the pin of a blacklisted address wins
  (`Networks.NamesServedExactly`).
- The planner refuses some strict configurations, and some only under some health maps:
  zero-length networks, a blacklist whose WAN is also a LAN interface, and a name that goes out
  the LAN into the blacklist (`Pipeline.StrictPlannable`). Which are accepted under every health
  map is stated too (`Pipeline.AlwaysPlannable`).
- The interfaces of LAN domains are not probed. A claimed address can ever be sent out if and
  only if it is when every probed interface is up (`Probes.ReachableExactly`), that is, if some
  target or network names a LAN interface (`Probes.LanReachableIff`). A configuration with LAN
  domains alone is accepted and sends nothing out (`Probes.DomainOnlyInput`).
- An environment file replaces the LAN interfaces but no older target's own, so the result fits
  the strict profile only if every older target uses the interfaces the file leaves in force
  (`EnvMerge.InterfacesFitExactly`).
- A record line without a readable address makes a name known with nothing behind it, and the
  strict profile takes it for answered; which names end up so is stated exactly
  (`EnvMerge.UnansweredExactly`).

## Model

| member | source | states |
|---|---|---|
| Net.OverlapIffCommonAddress | crates/reverse-core/src/planner.rs:100-102 | two networks overlap by the code's test if and only if some address lies in both, for every family, prefix length and untruncated host bits |
| Net.ContainsIsPrefix | crates/reverse-core/src/policy.rs:192 | an address lies in a network if and only if it is of its family and agrees with it on the bits of the prefix |
| Net.Nested | crates/reverse-core/src/config.rs:443-445 | networks sharing one address are nested: every address of the longer one lies in the shorter one |
| Net.TruncSameMembers | crates/reverse-linux/src/netlink.rs:499 | truncating a destination changes none of its addresses |
| Net.HostNetHoldsOne | crates/reverse-core/src/policy.rs:524-527 | a host-length network holds exactly its own address |
| Net.SameLengthSameBlock | crates/reverse-linux/src/netlink.rs:516 | two networks of one length sharing an address truncate to the same destination |
| Fib.WinnerUnique | crates/reverse-linux/src/netlink.rs:485-545 | the longest-prefix, least-metric winner of a lookup is unique |
| Fib.LookupIs | crates/reverse-linux/src/netlink.rs:485-545 | an entry at least as good as every covering entry is the answer of the lookup |
| Fib.ExtraWinsIff | crates/reverse-linux/src/netlink.rs:485-545 | further entries change the answer of a lookup if and only if one of them covers the address and beats the old answer |
| Fib.InstallOrigin | crates/reverse-linux/src/netlink.rs:485-545 | every entry after a series of replaces is the next hop of one of the routes, or was there before under a key none of them has |
| Fib.InstallKeepsAll | crates/reverse-linux/src/netlink.rs:513-531 | routes with pairwise distinct replace keys are all present after installing them |
| Fib.FreshCoversIff | crates/reverse-linux/src/netlink.rs:485-545 | a table built from nothing covers an address exactly when one of its routes does |
| Config.ValidateStrict | crates/reverse-core/src/config.rs:336-440 | accepts exactly the strict configurations, condition by condition on the fields, and every refusal names a violation the configuration really has |
| Config.ValidateTarget | crates/reverse-core/src/config.rs:377-417 | no complaint if and only if the target is drop-only, on LAN interfaces, numeric, and overlaps no blacklist entry |
| Config.ValidateDomain | crates/reverse-core/src/config.rs:419-437 | no complaint if and only if the domain has a static record without a blacklisted address |
| Config.SuffixKeepsDot | crates/reverse-core/src/classifier.rs:110-127 | every suffix the classifier produces begins with a dot |
| Config.SuffixForms | crates/reverse-core/src/classifier.rs:110-127 | for every plain name, the wildcard, tilde and dot forms classify as the same lower-case suffix |
| Config.NumericForms | crates/reverse-core/src/classifier.rs:72-107 | what an address, a network, a full-length network and a malformed one are to the classifier and to the two network parsers |
| Config.CanonicalForgets | crates/reverse-core/src/config.rs:447-449 | the canonical forms forget capitals, blanks and trailing dots, the policy engine's also routing-domain markers, and nothing else of a plain name |
| Config.CanonicalFormsAgree | crates/reverse-core/src/policy.rs:516-522 | for a plain host name, the policy engine's key after classification is the configuration's key |
| EnvMerge.MergeIdempotent | crates/reverse-core/src/config.rs:179-323 | for every configuration and file, merging twice equals merging once |
| EnvMerge.MergeMonotone | crates/reverse-core/src/config.rs:179-323 | blacklist, servers, domains, targets and records only grow at the end, and no duplicate is introduced |
| EnvMerge.InterfacesFitExactly | crates/reverse-core/src/config.rs:281-322 | for every file, the merged targets all have interfaces within the merged list if and only if the older ones fit the interfaces in force and a file that names none adds no target |
| EnvMerge.UnansweredExactly | crates/reverse-core/src/config.rs:238-255 | for every file and name, the name ends up known without an address if and only if it had none, the configuration or a record line knows it, and no line gives it a readable one; it then passes the strict profile |
| EnvMerge.InterfaceChangeRejected | crates/reverse-core/src/config.rs:292-294 | the failing input: a file that names LAN interfaces other than an older target's makes the configuration non-strict |
| EnvMerge.EmptyRecordPasses | crates/reverse-core/src/config.rs:238-255 | the failing input: one record line without readable addresses turns an unanswered domain into an accepted one |
| EnvMerge.ConfigRecord.ApplyEnv | crates/reverse-core/src/config.rs:179-323 | the in-place merge over the lines, and then over what had to wait for all of them, yields exactly the merged configuration, whose contents the rows after this one give over the lines |
| EnvMerge.ListsExactly | crates/reverse-core/src/config.rs:229-274 | a network, a server or a name is in the merged configuration if and only if it was before or some line of the file lists it, host names among the targets included |
| EnvMerge.AddressesExactly | crates/reverse-core/src/config.rs:238-255 | a name has an address if and only if it had it or a record line gives it, and is known if and only if it was or a record line names it |
| EnvMerge.TargetsExactly | crates/reverse-core/src/config.rs:276-322 | a CIDR text and port has a target if and only if it had one or the file lists it, directly or as a name the merged records resolve; new ones carry the last interface line and the last fallback, or none and "drop"; the last WAN line and the last non-empty interface line replace those lists; nothing else changes |
| EnvMerge.OneMoreEntry | crates/reverse-core/src/config.rs:229-274 | entries are appended in the order listed, unless they are there |
| EnvMerge.OneMoreTarget | crates/reverse-core/src/config.rs:306-322 | one more subnet at the end of a file without host names gives one more target at the end, named, with the interfaces and fallback of the file, unless there is one |
| EnvMerge.ResolvedComeLast | crates/reverse-core/src/config.rs:296-304 | among the new targets those of resolved host names come after the listed ones |
| EnvMerge.ConfigRecord.PushLanDomain | crates/reverse-core/src/config.rs:451-456 | appends the canonical name unless it is empty or already there |
| EnvMerge.ConfigRecord.PutRecordLine | crates/reverse-core/src/config.rs:238-255 | each record's addresses are appended without repetition under its canonical name, and an unusable name is skipped |
| EnvMerge.ConfigRecord.ResolvePending | crates/reverse-core/src/config.rs:296-304 | host names among the targets become LAN domains, and host-length targets for each address they already resolve to |
| EnvMerge.ConfigRecord.PushTargets | crates/reverse-core/src/config.rs:306-322 | a target is appended exactly when none has its CIDR text and port |
| EnvMerge.AddTargets | crates/reverse-core/src/config.rs:306-322 | old targets stay in front, every spec has a target, and new ones carry the file's interfaces and fallback |
| Health.PathHealth.RecordSuccess | crates/reverse-core/src/health.rs:34-59 | moves the record in place to the success transition of its old value, which Health.RecoveryEnds and Health.OutageAndRecovery determine on the probes |
| Health.PathHealth.RecordFailure | crates/reverse-core/src/health.rs:61-83 | moves the record in place to the failure transition of its old value, which Health.OutageAndRecovery determines on the probes |
| Health.FlapBound | crates/reverse-core/src/health.rs:34-90 | any n probes from the default state change availability at most 2 * ceil(n / (m + 1)) times, m being the smaller threshold, at least 1 |
| Health.FlapBoundTight | crates/reverse-core/src/health.rs:34-90 | when the failure threshold is the smaller one, some run of every multiple of m + 1 probes meets the bound |
| Health.FlapBoundNearlyTight | crates/reverse-core/src/health.rs:9-17 | when the recovery threshold is the smaller one, as by default, some run misses the bound by exactly one |
| Health.CountersAreTrailingRuns | crates/reverse-core/src/health.rs:34-83 | in every reachable state the counters count the trailing probes of one kind |
| Health.ChangesNeedEvidence | crates/reverse-core/src/health.rs:34-90 | the exact evidence behind every loss and every gain of availability, in terms of the preceding state and the trailing probes |
| Health.RecoveryEnds | crates/reverse-core/src/health.rs:34-59 | after any run that ends with more successes in a row than the recovery threshold, at least 1, the interface is healthy |
| Health.OutageAndRecovery | crates/reverse-core/src/health.rs:34-90 | from there exactly the failure threshold of failures in a row makes it unavailable; one success then makes it healthy again; after one failure more exactly the recovery threshold of successes in a row makes it available, and one failure right then takes it down; the first probe alone decides between healthy and down |
| Health.RecordFields | crates/reverse-core/src/health.rs:34-83 | the record holds the time of the last probe and whether any probe ever succeeded |
| Policy.FromConfig | crates/reverse-core/src/policy.rs:39-162 | the engine carries the configuration's rules stably sorted by source and copies of what it needs; Decisions.ManualRulesExactly, Decisions.SourcesInOrder and Decisions.GatewayExactly say which and in what order |
| Policy.BuiltOnce | crates/reverse-core/src/policy.rs:39-162 | one configuration and one set of readings build one engine |
| Policy.BuildManual | crates/reverse-core/src/policy.rs:46-107 | target rules, then LAN-domain rules, then network rules, in configuration order |
| Policy.DiscoverRules | crates/reverse-core/src/policy.rs:109-138 | the manual rules stay in front, every subnet a LAN interface offers has a rule, each added rule is for the first interface that offers its subnet, and no subnet comes twice or beside a manual rule |
| Policy.SortKeepsRules | crates/reverse-core/src/policy.rs:140-141 | sorting by source neither loses nor repeats a rule |
| Policy.Precedence | crates/reverse-core/src/policy.rs:140-301 | the first match in the sorted list is the matching rule whose source comes first in the declared order, and first by construction order within a source |
| Policy.DecisionPrecedence | crates/reverse-core/src/policy.rs:39-315 | the decision of an engine built from a configuration is that of the matching rule first in the declared order of sources and then by construction order, on its first available candidate or fallback, and the WAN's if none matches |
| Policy.Decide | crates/reverse-core/src/policy.rs:171-315 | the nested search loops return the decision of the first matching rule, the blacklist verdict before it and the WAN default after it |
| Policy.SelectCandidate | crates/reverse-core/src/policy.rs:228-248 | selects the candidate that is usable and has no usable one before it, none exactly when none is usable, and reports the last health looked at |
| Policy.FirstAvailable | crates/reverse-core/src/policy.rs:351-363 | the candidate that is usable and has no usable one before it; none exactly when none is usable |
| Policy.GenerateDesiredRoutes | crates/reverse-core/src/policy.rs:317-513 | pinned blacklist, then the routes of every rule, then removal of repetitions: exactly the specified routes |
| Policy.CompileRule | crates/reverse-core/src/policy.rs:365-507 | one rule's routes over its four matcher forms, unicast on the chosen interface, unreachable, or none |
| Policy.Retain | crates/reverse-core/src/policy.rs:510-512 | keeps the first of equal routes |
| Policy.DedupSpec | crates/reverse-core/src/policy.rs:510-512 | the kept routes are pairwise different and the same set |
| Decisions.ManualRulesExactly | crates/reverse-core/src/policy.rs:46-107 | the rules of a manual engine are exactly those of the targets, LAN domains and network domains that classify, with name, source, candidates and fallback spelled out |
| Decisions.DiscoveredExactly | crates/reverse-core/src/policy.rs:110-138 | outside manual mode every network of a LAN address that is not skipped has a rule, and every rule that is not manual is for such an address, out its interface, dropping on failure |
| Decisions.SkippedExactly | crates/reverse-core/src/policy.rs:114-121 | the skipped addresses are IPv4 and IPv6 loopback and IPv6 link-local |
| Decisions.SourcesInOrder | crates/reverse-core/src/policy.rs:140-141 | in every engine built from a configuration no rule of a later source stands before one of an earlier: hosts, names, networks, suffixes, discovered |
| Decisions.GatewayExactly | crates/reverse-core/src/policy.rs:143-148 | the IPv4 gateway is that of the first interface named like the WAN, and none without one |
| Decisions.BlacklistDecides | crates/reverse-core/src/policy.rs:176-207 | an address, or a name whose first known address it is, in the blacklist gets the WAN's decision whatever rules match |
| Decisions.DecidedIff | crates/reverse-core/src/policy.rs:209-226 | a text that is not blacklisted is decided by a rule if and only if some rule's host, network, name or suffix matches it, each spelled out |
| Decisions.FirstRuleDecides | crates/reverse-core/src/policy.rs:228-301 | the first matching rule decides, with the first usable candidate and its own table, or by its fallback and the last candidate's health |
| Decisions.HostTargetDecides | crates/reverse-core/src/policy.rs:39-301 | an address that is a configured host target is decided by the first such target and its first usable interface, whatever networks, names or suffixes also match |
| Decisions.RoutesExactly | crates/reverse-core/src/policy.rs:317-513 | a route is desired if and only if it pins a blacklist entry with metric 1, or covers a block of a rule, out the first usable candidate, or unreachable if there is none and the rule does not fall back to the WAN, with metric 100 for networks and 50 for addresses |
| Policy.DesiredRoutesSpec | crates/reverse-core/src/policy.rs:334-512 | a route is desired if and only if it pins a blacklist entry or speaks for a rule |
| Policy.RuleRoutesSpec | crates/reverse-core/src/policy.rs:351-507 | a rule's routes are exactly one route for each of its blocks, or none when it falls back to the WAN |
| Claims.Trichotomy | crates/reverse-core/src/config.rs:336-440 | under the strict profile with servable names, for every health map and address: blacklisted goes out the WAN, a configured destination goes out a usable LAN interface or nowhere, anything else is not covered |
| Claims.CompiledCovers | crates/reverse-core/src/policy.rs:334-512 | the compiled table covers exactly the pinned blacklist and the blocks of speaking rules |
| Claims.EntryOrigin | crates/reverse-core/src/policy.rs:334-512 | every compiled entry over an address belongs to a blacklist entry or a speaking rule over that address |
| Claims.StrictRuleShape | crates/reverse-core/src/config.rs:377-437 | a strict rule drops and, where the names fit, uses only LAN interfaces and covers only claimed, non-blacklisted addresses |
| Claims.StrictCovers | crates/reverse-core/src/config.rs:336-440 | what a strict configuration's table covers: its blacklist, its targets and what its names claim, nothing else |
| Claims.PlainDomainClaims | crates/reverse-core/src/config.rs:419-437 | plain LAN domains claim exactly their static answers |
| Claims.PlainDomainsFit | crates/reverse-core/src/config.rs:419-437 | with plain LAN domains and no domains on networks every strict configuration has fitting names |
| Claims.PinnedHostWins | crates/reverse-core/src/policy.rs:334-349 | an IPv6 blacklist entry for one address sends it out the WAN whatever rules cover it |
| Networks.NamesServedExactly | crates/reverse-core/src/policy.rs:86-107 | for plain names going one way per block: the policy is served to every address under every health map if and only if each name, over each address it covers, uses LAN interfaces or the pin of a blacklisted address wins |
| Networks.BlacklistedNameInput | crates/reverse-core/src/policy.rs:329-349 | the failing input: strict profile and planner accept a network name with a blacklisted answer, and it is sent out the network's interface, which is no LAN interface |
| Claims.ClaimsIndependentOfHealth | crates/reverse-core/src/policy.rs:429-507 | the claimed destinations are the same for all health maps if and only if WAN-fallback rules with a candidate claim only what is claimed anyway |
| Claims.SuffixRuleRoutesNothing | crates/reverse-core/src/policy.rs:409-425 | a suffix rule matches every name with its ending and yields no route, over ordinary record names |
| Agreement.AgreementExact | crates/reverse-core/src/policy.rs:209-224 | with distinct address blocks, first match and longest prefix name the same rule on all non-blacklisted addresses if and only if there is no inversion |
| Agreement.DecideMatchesKernel | crates/reverse-core/src/policy.rs:171-315 | without an inversion, what `decide` reports for a numeric address is what the kernel does: interface, block or no cover |
| Agreement.LongestWins | crates/reverse-core/src/policy.rs:351-508 | the rule with the longest block over an address provides the winning entry |
| Agreement.InversionDisagrees | crates/reverse-core/src/policy.rs:209-224 | on every inversion the two disagree |
| Planner.ValidateDesired | crates/reverse-core/src/planner.rs:48-75 | accepts exactly the desired states without a default route or a LAN route over the blacklist |
| Planner.PlanDiff | crates/reverse-core/src/planner.rs:7-46 | succeeds exactly on valid states, and returns exactly the desired that is not owned and the owned with the allocated identifiers that is not desired |
| Planner.DiffConverges | crates/reverse-core/src/planner.rs:10-45 | applying the diff as sets yields the desired routes and rules if and only if owned records carry the allocated ids or are desired anyway |
| Planner.EmptyDiffIff | crates/reverse-core/src/planner.rs:10-45 | the diff is empty exactly when nothing is missing and nothing owned is obsolete |
| Planner.ValidatedNeverLeaks | crates/reverse-core/src/planner.rs:48-75 | in any accepted state, lookup never sends a blacklisted address out a LAN interface |
| Transaction.AddsKeepCoverage | crates/reverse-app/src/reconcile.rs:94-113 | during the adds, nothing the old routes cover is uncovered |
| Transaction.RemovesKeepDesired | crates/reverse-app/src/reconcile.rs:115-118 | during the removes, whichever of them fail, every desired route stays installed |
| Transaction.LeftoversExactly | crates/reverse-app/src/reconcile.rs:94-118 | after all adds and some of the removes the table has an entry for exactly the desired routes and the owned routes that were not removed |
| Transaction.RollbackRestores | crates/reverse-app/src/reconcile.rs:256-268 | after any number of adds and any of the removes, the rollback rebuilds exactly the old table, if no deletion reaches past the key of its route; changes of gateway alone qualify |
| Transaction.RollbackGapExactly | crates/reverse-app/src/reconcile.rs:256-268 | wherever the run stopped, between the two halves of the rollback an address is covered exactly if some old route over it was neither overwritten nor removed nor is named by a deletion |
| Transaction.VerificationGapExactly | crates/reverse-app/src/reconcile.rs:176-189 | after a failed verification the midpoint of the rollback covers exactly what the routes common to both lists cover |
| Transaction.RollbackFromAnywhere | crates/reverse-app/src/reconcile.rs:256-268 | from any table whatever the rollback leaves every old route installed and nothing that was not there before |
| Convergence.ApplyExact | crates/reverse-app/src/reconcile.rs:94-118 | the applied table holds every desired route if and only if no removal clobbers an addition |
| Convergence.ApplyReachesDesired | crates/reverse-app/src/reconcile.rs:94-118 | without clobbering, adds followed by removes end in exactly the table of the desired routes |
| Convergence.IdentifiedNeverClobbers | crates/reverse-linux/src/netlink.rs:548-589 | routes that deletions can tell apart never clobber each other |
| Convergence.DeleteAllExact | crates/reverse-linux/src/netlink.rs:548-589 | which entries a series of deletions removes, by least metric |
| Convergence.Ipv6NeverObserved | crates/reverse-linux/src/netlink.rs:329-334 | no table shows an IPv6 route to the verification |
| Convergence.GatewayChangeNeverObserved | crates/reverse-linux/src/netlink.rs:562-571 | after a gateway-only change the destination is missing from the table and from the listing |
| Convergence.TableChangeNeverObserved | crates/reverse-app/src/reconcile.rs:162-174 | desired routes in a new table are missing from the listing of the old one |
| Convergence.ObservedExactly | crates/reverse-app/src/reconcile.rs:162-174 | for tidy states, clobbered or not, verification passes if and only if every desired route is IPv4 and an entry of its destination and type is left |
| Convergence.MetricChangeLeavesStale | crates/reverse-app/src/reconcile.rs:115-174 | the failing input: a better metric alone; the new entry is deleted, the old one stays, and verification passes |
| Netfilter.LanAllowRulePlan | crates/reverse-linux/src/firewall.rs:57-78 | one rule for each parsed network, two with a port, none for a text without prefix length |
| Netfilter.PlanVerdict | crates/reverse-linux/src/firewall.rs:118-180 | a completed chain drops every blacklisted destination, even established, and otherwise accepts exactly established, DHCP, ICMP and admitted packets |
| Netfilter.AcceptedExactly | crates/reverse-linux/src/firewall.rs:57-180 | a completed chain lets a packet out if and only if its destination is not blacklisted and it is established, a DHCP client's, ICMP of the family, or to an allowed network, on the port over UDP or TCP where one is given |
| Netfilter.GuardedDecides | crates/reverse-linux/src/firewall.rs:179-193 | on a guarded interface every packet gets a verdict before the chain policy |
| Firewall.ApplyFamily | crates/reverse-linux/src/firewall.rs:95-205 | every state of a run is the old one with the inactive chain holding a part of the plan, or one with the complete new chain hooked and older hooks leaving in order; success leaves only the new generation hooked, and passes the flushed, the hooked and the legacy-free state |
| Firewall.FillChain | crates/reverse-linux/src/firewall.rs:116-180 | every state holds a prefix of the plan in the target and touches nothing else; success leaves the whole plan |
| Firewall.EnsureHook | crates/reverse-linux/src/firewall.rs:182-193 | the complete chain ends up hooked, and without a failed command it is inserted in front exactly if it was not hooked |
| Firewall.RemoveOutputHooks | crates/reverse-linux/src/firewall.rs:304-313 | the loop ends, drops first occurrences of that hook one by one until none is left, and disturbs no other |
| Firewall.CleanupFamily | crates/reverse-linux/src/firewall.rs:216-243 | without a failure no chain of the tool that existed exists or is hooked any more; with or without one, chains of others keep their rules and their hooks keep their order |
| Firewall.ChainNames | crates/reverse-linux/src/firewall.rs:245-249 | the names of an interface's chains, and that they are the ones a cleanup takes for the tool's |
| Generations.NeverOpens | crates/reverse-linux/src/firewall.rs:108-202 | in every state between commands the soundness invariant holds and a guarded interface stays guarded |
| Generations.GuardedForever | crates/reverse-linux/src/firewall.rs:95-205 | over any sequence of runs for any interfaces, each stopping anywhere, a guarded interface with distinct chain names is guarded forever |
| Generations.GuardedSinceSuccess | crates/reverse-linux/src/firewall.rs:95-205 | once one run for an interface has succeeded, the interface is guarded in every later state, whatever runs follow and wherever they stop |
| Generations.ForeignRun | crates/reverse-linux/src/firewall.rs:95-205 | a run for another interface leaves this one's hooks and chains alone |
| Generations.VerdictsSwapAtomically | crates/reverse-linux/src/firewall.rs:108-202 | when the chain being rebuilt is not hooked, each intermediate state gives all packets the old verdicts or all packets the new ones, and other interfaces see no change |
| Generations.SwapExactly | crates/reverse-linux/src/firewall.rs:108-202 | in every state of a successful run every packet gets its old or its new verdict if and only if a condition on the state before holds, and then also in every state of a run that fails |
| Generations.SwapSafeExactly | crates/reverse-linux/src/firewall.rs:111-116 | without a legacy chain that condition is: the chain to be rebuilt is not hooked, or not in front, or the older generation never says a third thing |
| Generations.PrecedenceExactly | crates/reverse-linux/src/firewall.rs:182-197 | once hooked, the new chain is the interface's first own hook if and only if it was not hooked at the start or already in front; it waits exactly when both generations are hooked and _B is not first |
| Generations.InterruptedLeavesBoth | crates/reverse-linux/src/firewall.rs:182-202 | every successful run started from one generation passes a state with both hooked, the new one in front |
| Generations.WaitsBehindOlder | crates/reverse-linux/src/firewall.rs:188-197 | the failing input for precedence: with _A in front of _B, a network the new policy revokes is still let through |
| Generations.FlushExposesOlderGeneration | crates/reverse-linux/src/firewall.rs:111-116 | the failing input for the swap: with _B in front of _A, the flush lets packets pass that neither the policy in force nor the new one admits |
| Generations.SettledVerdict | crates/reverse-linux/src/firewall.rs:118-202 | after success a packet leaving the interface gets exactly the policy's verdict |
| Generations.NamesApartExactly | crates/reverse-linux/src/firewall.rs:245-249 | two interfaces have disjoint chains if and only if their sanitised names differ and neither is the other with a generation suffix |
| Generations.CollisionOpensOther | crates/reverse-linux/src/firewall.rs:245-249 | with colliding names, rebuilding one interface leaves the other unfiltered |
| Kernel.Host.RouteReplace | crates/reverse-linux/src/netlink.rs:494-542 | replaces the entry under the route's key, or changes nothing |
| Kernel.Host.RouteDel | crates/reverse-linux/src/netlink.rs:548-589 | removes the least-metric matching entry; a missing entry is reported as such |
| Kernel.Host.RouteFlush | crates/reverse-linux/src/netlink.rs:592-601 | removes the table's IPv4 entries |
| Netlink.AddRoute | crates/reverse-linux/src/netlink.rs:485-545 | refuses a default route without a command, else installs the route with one command, in at most one step |
| Netlink.DeleteRoute | crates/reverse-linux/src/netlink.rs:548-589 | one command; a success is the deletion, including when there was nothing to delete |
| Netlink.EnsureRpdbRule | crates/reverse-linux/src/netlink.rs:423-451 | on success the rule is there, and no other rule changed |
| Netlink.RemoveRpdbRule | crates/reverse-linux/src/netlink.rs:454-482 | without a failure the rule is gone, and no other rule changed |
| Netlink.HasDefaultRoute | crates/reverse-linux/src/netlink.rs:136-141 | a positive answer is a default route that is really there |
| Netlink.RemoveDefaultRoutes | crates/reverse-linux/src/netlink.rs:145-175 | in every step nothing changes but that defaults of this device go; without a failure none is left |
| Netlink.PrioritizeWan | crates/reverse-linux/src/netlink.rs:179-252 | in every step a default route on the WAN stays; without a failure exactly the metric-50 copies of the WAN's entries are in place and every other key is as it was; Netlink.PrioritizedExactly says what the copies are |
| Netlink.PrioritizedExactly | crates/reverse-linux/src/netlink.rs:179-252 | the WAN has a metric-50 default through the gateway of one of its other defaults if it has one with a gateway, and a metric-50 entry without a gateway for each of its subnets; every other key is as it was |
| Netlink.RestoreWan | crates/reverse-linux/src/netlink.rs:255-278 | without a failure exactly the device's metric-50 entries are gone |
| Netlink.RestoreUndoesExactly | crates/reverse-linux/src/netlink.rs:179-278 | prioritize then restore is the identity if and only if no metric-50 entry was the WAN's own or was overwritten; the WAN keeps a default exactly if it had one with another metric |
| Netlink.RestoreKeepsDefaultIff | crates/reverse-linux/src/netlink.rs:255-278 | a restored device keeps a default exactly if it has one with another metric; other devices keep theirs |
| Stages.ApplyFirewall | crates/reverse-app/src/reconcile.rs:219-254 | in every state only the guard moves; on success each interface obeys the desired plan in both families |
| Stages.CollectTargets | crates/reverse-app/src/reconcile.rs:224-242 | the allow list of an interface: its whitelist entries in order, or its routes when the whitelist is empty |
| Stages.RemoveRoutes | crates/reverse-app/src/reconcile.rs:115-118 | issues one deletion per route, and the table is what exactly those that succeeded leave |
| Stages.Rollback | crates/reverse-app/src/reconcile.rs:256-268 | deletes the added routes and re-adds the old ones, one command for each, touches routes only, and, when these succeed, ends with their exact table after passing through the one with the added routes deleted |
| Stages.SettleMain | crates/reverse-app/src/reconcile.rs:124-160 | in every state the WAN keeps its default; without a failure no other interface in use has one, and the main table is exactly the old one with the WAN's copies in and those defaults out, as Stages.SettledExactly spells out |
| Stages.SettledExactly | crates/reverse-app/src/reconcile.rs:124-160 | key by key: the WAN's metric-50 default with its gateway, the copies of its subnets, the defaults of other interfaces in use gone, everything else as it was |
| Stages.Verify | crates/reverse-app/src/reconcile.rs:162-174 | true only if each desired destination and type is listed in the given table, and exactly then when no command fails |
| State.CommitConverges | crates/reverse-app/src/state.rs:97-104 | a commit leaves a consistent record, against which planning converges and the same state needs nothing |
| State.CommitRecords | crates/reverse-app/src/reconcile.rs:191-204 | a commit records what was desired, the identifiers of the first rule if there is one, and one generation more |
| State.StateStore.Load | crates/reverse-app/src/state.rs:76-84 | an absent file loads as the default record, a corrupt one never loads, a saved one loads as what was recorded unless reading fails, and that is counted |
| State.StateStore.Save | crates/reverse-app/src/state.rs:86-95 | on success the record is stored; a failing write is counted and leaves the old file or an unreadable one |
| Reconcile.Reconciler.Reconcile | crates/reverse-app/src/reconcile.rs:36-217 | guard first, WAN never lost, make before break; exact rollback of the routes, also for a moved gateway, whenever the commands of the rollback itself succeed, whatever failed before, and always if a single forward command failed; rules only added and removed as planned and never undone; commit only what was observed, with the removals that failed as the only leftovers; record untouched unless committed; no command at all when refused, dry or idle; each error has its cause, and without a failure a run ends with a report if and only if the record is readable, the plan valid, and the WAN has its default or there is nothing to do; the main table after a run without failures is exact too, committed or rolled back; every report, a dry run's included, carries the diff between record and desired state |
| Reconcile.Reconciler.Apply | crates/reverse-app/src/reconcile.rs:83-217 | the same from the guard onwards, for every failure point; an error means a failed command or a failed save |
| Reconcile.ApplyDiff | crates/reverse-app/src/reconcile.rs:89-217 | all states after the guard keep the firewall, the WAN default and the bounds on the rules; how the run may end, with the exact routes and rules of a run without failures, committed or rolled back, from any table; the routes before the run whenever the rollback's own commands succeed; the leftovers of a commit |
| Reconcile.ChangeRoutes | crates/reverse-app/src/reconcile.rs:94-123 | the table after the adds and exactly those removes that succeeded, and that every state keeps what both policies claim |
| Reconcile.CommitLeftovers | crates/reverse-app/src/reconcile.rs:115-118 | from a synced kernel a commit leaves the desired routes and the owned routes whose removal failed, at most as many as commands failed |
| Reconcile.LeftoverWinsIff | crates/reverse-linux/src/netlink.rs:485-545 | with such leftovers a lookup differs from the desired one if and only if a leftover covers the address and beats the desired answer |
| Reconcile.StaleUnreachableInput | crates/reverse-app/src/reconcile.rs:115-206 | the failing input: a host gets an interface while the deletion of its unreachable route fails; it verifies, stays unreachable, the record does not own the leftover, and the next run finds nothing to do |
| Reconcile.CleanUndoRestores | crates/reverse-app/src/reconcile.rs:176-189 | a rollback without a failed command gives a synced kernel its table back, whenever no deletion reaches past its key |
| Reconcile.RollbackKeepsRulesIff | crates/reverse-app/src/reconcile.rs:256-268 | after a run without a failed command, also a rolled back one, the RPDB rules are as before if and only if every rule to add was there and no rule to remove was |
| Reconcile.DesiredRulesIff | crates/reverse-app/src/reconcile.rs:89-92 | every desired rule is in the kernel afterwards if and only if the desired rules the record owns were there before |
| Reconcile.TableChangeCutsOff | crates/reverse-app/src/reconcile.rs:120-189 | a table change without a failed command rolls back, no rule leads to the old table any more, and no later desired state has it added again |
| Reconcile.TableChangeInput | crates/reverse-app/src/reconcile.rs:120-189 | the failing input: one host moved from table 52000 to 53000; before, the kernel consults table 52000 for it if it is an IPv4 host, afterwards no more |
| Reconcile.VerificationUndoUncovers | crates/reverse-app/src/reconcile.rs:176-189 | the rollback after a failed verification passes through, or starts from, a table covering only what old and desired routes have in common |
| Reconcile.UndoUncoversExactly | crates/reverse-app/src/reconcile.rs:256-268 | every rollback whose commands succeed passes through a table covering exactly the old routes neither overwritten nor removed |
| Reconcile.Reconciler.Reset | crates/reverse-app/src/reconcile.rs:270-305 | whatever it starts from, without a failed command: no (12000, 52000) rule, no recorded rule, the recorded routes deleted, no chain of the tool, no IPv4 entry in table 52000, and the main table without the metric-50 entries of the WAN, wlan0 and wlan1; without a failed file operation the record is used if there is a readable one, and then gone; chains and hooks of others are untouched in any case |
| Reconcile.ApplyThenReset | crates/reverse-app/src/reconcile.rs:124-305 | a reset gives back the main table from before a run if and only if no other interface of a desired route had a default, no metric-50 entry belonged to a device the reset looks at, and no metric-50 entry made way for a copy (or, should it not look at the WAN, every copy was there before) |
| Reconcile.ResetFindsWan | crates/reverse-app/src/reconcile.rs:299-303 | the reset looks at the WAN if every default route was the WAN's or one of an interface in use |
| Reconcile.ShutdownRestoresMain | crates/reverse-app/src/daemon.rs:252-262 | from an apply without a failed command to the exit, with every default on the WAN or an interface in use, the main table is restored if and only if only the WAN had a default, no metric-50 entry was of the WAN, wlan0 or wlan1, and none made way for a copy |
| Reconcile.LanDefaultLostInput | crates/reverse-app/src/daemon.rs:252-262 | the failing input: a second default route through eth1 is gone after apply and shutdown |
| Reconcile.FlushEmptiesIff | crates/reverse-app/src/reconcile.rs:293-297 | the flush empties a table if and only if it held no IPv6 entry |
| Reconcile.RecordedResetEmpties | crates/reverse-app/src/reconcile.rs:275-279 | with the record of a synced kernel the deletions of the recorded routes empty it, in both families |
| Reconcile.CleanCommitConverges | crates/reverse-app/src/reconcile.rs:94-207 | unless a removal clobbers an addition, a commit without failures reaches exactly the table of the desired routes, and the record owns it |
| Reconcile.CommittedIsQuiet | crates/reverse-app/src/reconcile.rs:56-69 | right after a commit the same desired state takes the early return |
| Reconcile.NothingToDoExactly | crates/reverse-app/src/reconcile.rs:56-69 | the early return is taken if and only if the record owns what is desired, owns nothing obsolete, and its whitelist, blacklist and sorted interfaces are the desired ones |
| Reconcile.Ipv6NeverCommits | crates/reverse-app/src/reconcile.rs:162-189 | with an IPv6 route desired no table passes verification, and a run without failures rolls back |
| Reconcile.GatewayChangeNeverCommits | crates/reverse-app/src/reconcile.rs:115-189 | when no command fails, a gateway-only change leaves its block without an entry, rolls back, and ends with the old table |
| Reconcile.TableChangeNeverCommits | crates/reverse-app/src/reconcile.rs:162-189 | a change of the table id rolls back when no command fails |
| Failover.FailoverSeparable | crates/reverse-app/src/daemon.rs:176-182 | between any two health maps of an engine whose claims over one block are interchangeable, the hypotheses of make-before-break, rollback and convergence hold |
| Failover.FailoverNeverUncovers | crates/reverse-core/src/policy.rs:429-507 | when claims do not depend on health, every state of a failover covers what either map claims |
| Failover.CleanRunCommitsExactly | crates/reverse-app/src/reconcile.rs:162-207 | where nothing is clobbered, a run without failures commits if and only if all desired routes are IPv4 and in the recorded table |
| Failover.CommitsExactly | crates/reverse-app/src/reconcile.rs:162-207 | for all tidy states a run without failures commits if and only if every desired route is IPv4 and an entry of its destination and type is left |
| Gateways.ReadingsOnlyMoveGateways | crates/reverse-app/src/daemon.rs:455-487 | engines built from one manual configuration under different readings differ in the WAN gateways alone |
| Gateways.SamePinsIff | crates/reverse-core/src/policy.rs:334-349 | two readings pin the blacklist alike if and only if there is no WAN or each family with an entry has the same gateway |
| Gateways.PinsDecideRoutes | crates/reverse-core/src/policy.rs:317-513 | readings that pin alike compile to the same routes under every health map |
| Gateways.VariantsReversible | crates/reverse-app/src/reconcile.rs:256-268 | between any two readings and health maps every rollback is exact |
| Gateways.MovedPinNeverObserved | crates/reverse-app/src/reconcile.rs:115-174 | with a pin that moved no run without failures passes verification, whatever the health map |
| History.TurnKeepsSteady | crates/reverse-app/src/daemon.rs:176-182 | a failover under the recorded gateways, committed or rolled back, leaves kernel and record in step, owned rules included, and the configured RPDB rule in the kernel |
| History.TurnStaysSteady | crates/reverse-app/src/daemon.rs:427-550 | the same under any gateway readings |
| History.TurnFollowsIff | crates/reverse-app/src/daemon.rs:427-550 | with IPv4 claims in the recorded table, the kernel takes over the new health map if and only if the gateways just read pin the blacklist as the record does; otherwise kernel and record stay as they are |
| History.GatewayStallInput | crates/reverse-app/src/daemon.rs:481-487 | the failing input: the gateway moves, eth1 fails, and a host's traffic still goes to eth1 |
| History.StaysSteady | crates/reverse-app/src/daemon.rs:176-182 | along any run of failovers without a failed command, whatever the readings and families, kernel and record stay in step |
| History.HistoryExactly | crates/reverse-app/src/daemon.rs:176-182 | along any such run with IPv4 claims the kernel holds the routes of the current health map alone if and only if the current gateways pin as the record does, and at any time those of the last map for which they did |
| History.PolicyServedThroughout | crates/reverse-app/src/daemon.rs:427-586 | under the strict profile, after every failover of a run the kernel consults the policy table for exactly the IPv4 addresses, and the table answers as the policy says for the last health map that came with the recorded gateways |
| History.TurnInStep | crates/reverse-app/src/daemon.rs:176-182 | a turn leaves the kernel in step with the new health map under the recorded gateways, and with the old one otherwise |
| History.UsableDecidesRoutes | crates/reverse-core/src/policy.rs:351-363 | health maps that agree on which interfaces are usable compile to the same routes |
| History.InStepServes | crates/reverse-app/src/daemon.rs:427-550 | a kernel in step with a health map consults the policy table for exactly the IPv4 addresses, and it answers as the policy says for that map |
| Orphans.TurnInStepBeside | crates/reverse-app/src/daemon.rs:176-182 | over entries that nobody owns and that lie on no claimed block, a turn leaves these alone and is in step with the same health map as without them |
| Orphans.FirstTurnBeside | crates/reverse-app/src/daemon.rs:105-120 | without a record the first turn gets in step from any table, with every entry beside it that it did not overwrite |
| Orphans.OrphanDecidesIff | crates/reverse-linux/src/netlink.rs:485-545 | an address goes elsewhere than the policy says if and only if an entry nobody owns covers it and beats the policy's answer |
| Orphans.InterruptedApplyHeals | crates/reverse-app/src/reconcile.rs:94-113 | a first apply stopped after any number of routes leaves nothing that the same policy does not take over |
| Orphans.ClaimedOrphanInput | crates/reverse-app/src/reconcile.rs:115-118 | the failing input on a claimed block: the deletion of a host's route takes the orphan with the better metric, and the route stays, owned by nobody |
| Orphans.OrphanInput | crates/reverse-app/src/daemon.rs:67-77 | the failing input: one host route left in a blacklisted block sends the host out eth1, whatever the daemon does |
| Pipeline.CollectWhitelist | crates/reverse-app/src/daemon.rs:513-537 | every target on each of its interfaces and every static answer on every LAN interface |
| Pipeline.AllowedIsAdmitted | crates/reverse-app/src/daemon.rs:513-537 | an interface's allow list admits exactly the packets to network targets of the interface and to static answers |
| Pipeline.StrictPlannable | crates/reverse-core/src/planner.rs:48-75 | for every health map, the planner accepts a strict configuration if and only if nothing in it is a zero-length network, a non-empty blacklist's WAN is no LAN interface, and no name then goes out the LAN into the blacklist |
| Pipeline.AlwaysPlannable | crates/reverse-core/src/planner.rs:48-75 | a strict configuration is accepted under every health map if and only if it has no zero-length network, a non-empty blacklist's WAN is no LAN interface, and no name with a LAN interface resolves into the blacklist, which fitting names never do |
| Pipeline.RoutedPacketVerdict | crates/reverse-linux/src/firewall.rs:57-78 | where routing sends an address out an interface, its chain passes the packet exactly when established, DHCP, ICMP or admitted, or when nothing at all is whitelisted; network targets and plain answers are admitted |
| Networks.BareTargetInput | crates/reverse-core/src/config.rs:401-406 | the failing input: a bare-address target is routed out its interface, whose chain drops a plain packet to it |
| Pipeline.CommittedPolicy | crates/reverse-app/src/daemon.rs:427-541 | end to end, for servable names: after a commit without failures the policy table answers every address as the strict policy says; the rule to it is there, and the table consulted for exactly the IPv4 addresses, if and only if the record did not own the rule or the kernel had it |
| Pipeline.StrictTractable | crates/reverse-core/src/config.rs:336-440 | a strict configuration with fitting names whose entries over one block are written alike and go the same way meets the hypotheses of the failover theorems |
| Pipeline.PlainNamesAgree | crates/reverse-core/src/config.rs:296-304 | plain LAN domains go the same way as every target over their answers, if such targets use all LAN interfaces |
| Pipeline.StrictPolicyServed | crates/reverse-app/src/daemon.rs:427-586 | the whole life of a strict IPv4 configuration: after every failover the kernel holds the routes of the current health map if and only if nothing is blacklisted or the gateway is the recorded one, and answers as the policy says for the last map followed |
| Probes.ProbeListMember | crates/reverse-app/src/daemon.rs:133-147 | exactly the interfaces of networks and targets are probed |
| Probes.HealthIsPerInterface | crates/reverse-app/src/daemon.rs:151-164 | after any ticks, an interface's health is the state machine run over the probes it saw |
| Probes.FailoverBound | crates/reverse-app/src/daemon.rs:149-182 | n ticks over k interfaces trigger at most 2 * k * ceil(n / (m + 1)) reconciliations, even as the list changes |
| Probes.UsableIffProbed | crates/reverse-app/src/daemon.rs:133-147 | some run makes an interface available if and only if it is on the probe list |
| Probes.ReachableExactly | crates/reverse-app/src/daemon.rs:133-147 | for every strict configuration with servable names, some run of ticks has a claimed address sent out the LAN if and only if it is with every probed interface up |
| Probes.LanReachableIff | crates/reverse-app/src/daemon.rs:133-147 | that is the case if and only if some target or network names a LAN interface, provided networks with domains are probed themselves |
| Probes.HealthIsMonotone | crates/reverse-core/src/policy.rs:351-508 | better health never turns a unicast answer into an unreachable one |
| Probes.DomainOnlyInput | crates/reverse-core/src/config.rs:419-437 | the failing input: one LAN domain and no target is accepted, and its answer is never sent out |
| Probes.UnprobedLanIsUnreachable | crates/reverse-app/src/daemon.rs:133-147 | if no LAN interface is probed, every claimed address is unreachable in every reachable health map |
| Daemons.StrictNeedsNoDns | crates/reverse-app/src/daemon.rs:435-450 | a strict configuration is manual and answers every LAN domain itself |
| Daemons.StrictWatched | crates/reverse-core/src/config.rs:336-440 | a strict IPv4 configuration with fitting names, whose entries over one block agree, meets the hypotheses of the daemon's life if and only if a non-empty blacklist's WAN is no LAN interface |
| Daemons.Daemon.constructor | crates/reverse-app/src/daemon.rs:34-58 | starts without health records, with the configured WAN unless it is absent or "auto", else the detected one; a strict configuration always names its own |
| Daemons.Daemon.ExecuteApply | crates/reverse-app/src/daemon.rs:427-586 | rejects exactly the non-strict configurations and then touches nothing; otherwise reconciles exactly the state compiled from configuration and health map, never detects, resolves or recurses, and leaves the configuration unchanged; without a failure it succeeds if and only if the record is readable, the planner accepts, and the WAN has its default or there is nothing to do; the WAN keeps its default |
| Daemons.Daemon.ProbeTick | crates/reverse-app/src/daemon.rs:126-200 | moves the health map by one probe per listed interface, reconciles if and only if some availability changed, ends that like an apply of its own and succeeds exactly then, and otherwise changes nothing but that stray defaults of target interfaces go; either way the WAN keeps its default |
| Daemons.Daemon.Watch | crates/reverse-app/src/daemon.rs:126-200 | over any number of ticks, if nothing fails and the interfaces can be read, a kernel in step with a WAN default ends in step with exactly the health map of the last reconciliation that read the recorded gateways, still readable and with its WAN default, and with the entries beside it that nobody owns untouched if they lie on no claimed block; the health map and the number of reconciliations are those of the tick run |
| Daemons.Daemon.Run | crates/reverse-app/src/daemon.rs:60-200 | from any record and any tables, over any number of ticks: if nothing fails, the interfaces can be read and the WAN has its default, a strict, plannable IPv4 daemon in table 52000 ends with the kernel in step with the health map of the last reconciliation that read the first gateways, which is as usable as the current one while the readings agree, and beside it exactly the entries that neither the reset nor the first policy took, if these lie on no claimed block or the loop does not reconcile; after at most 2 * k * ceil(n / (m + 1)) reconciliations by the probe loop |
| Daemons.NoOrphans | crates/reverse-app/src/daemon.rs:67-77 | there are no such entries after a start from empty tables, an interrupted first apply of the same policy, the record of a synced kernel, or an unreadable record with all routes IPv4 and in table 52000 |
| Daemons.FollowedIsCurrent | crates/reverse-app/src/daemon.rs:149-182 | while all readings give the recorded gateways, the health map last followed has the same interfaces usable as the current one |
| Daemons.Daemon.RecordProbes | crates/reverse-app/src/daemon.rs:149-173 | the loop over the records yields the specified map, and reports a change exactly when there is one |
| Daemons.Daemon.GuardDefaults | crates/reverse-app/src/daemon.rs:183-198 | nothing changes but that defaults of other target interfaces go; the WAN's stay, and without a failure no other is left |

## Left out

- Text formats: parsing of IP texts, URLs, TOML, JSON and command output; the model starts from what was read.
- Process spawning, sysfs, sockets and TCP probing: only their outcomes appear.
- RPC, client, CLI, daemonising, PID and log files: plumbing. `Apply` over RPC replaces the configuration before it is validated; `Daemons.Daemon.ExecuteApply` covers what follows.
- Daemons.Daemon.Run: what it says about the end assumes table 52000, since a fresh record verifies there and a run that desires routes elsewhere rolls back. With entries that nobody owns on claimed blocks it speaks about the end only while nothing is reconciled again; `Orphans.ClaimedOrphanInput` shows what can happen then.
- DNS backends and split DNS: foreign calls, and dead code under the strict profile.
- `LanDetector`, interface classification by name, `allocate_table` and the target lists: easy members, or rejected by the strict profile.
- `is_lan_domain`, `plan`, `remove_egress_whitelist` and `apply_egress_whitelist`: variants of what is modelled.
- `reason` texts of decisions, error messages and `last_reconcile_epoch`: for people only.
- `failback_cooldown_secs`: never read by the source.
- Overflow of 32-bit counters and identifiers: numbers are unbounded.
- Rules and routes of other administrators in the tool's tables, and foreign OUTPUT hooks: statements about verdicts say so where they assume none.
- Agreement.DecideMatchesKernel: covers numeric addresses and address rules. Names have no address until resolved, suffix rules have no routes, and `decide` on an address that is only a domain's answer reports the WAN although a route exists.
- Claims.Trichotomy: assumes servable names, which the strict profile checks for plain LAN domains only; Networks.NamesServedExactly says when that is necessary. For suffixes and numeric texts as names it is stated in one direction.
- History.HistoryExactly: assumes IPv4 claims, since nothing else is ever committed, and that claims over one block are interchangeable: otherwise one state holds two routes with one kernel key.
- Transaction.AddsKeepCoverage: make-before-break is claimed where deletions tell all routes apart; a change of gateway alone breaks it, as Convergence.GatewayChangeNeverObserved shows.
- Generations.VerdictsSwapAtomically: gives the condition for the stronger, uniform form in one direction; the exact condition is stated packet by packet in Generations.SwapExactly.
- Generations.SwapSafeExactly: leaves out the legacy chain of older versions, which Generations.SwapExactly covers.
- Kernel.Host: a command that fails changes nothing; a command that is killed halfway is not modelled.
- Fib.KernelPrio: the kernel's treatment of equal-metric IPv6 entries as multipath is not modelled.
