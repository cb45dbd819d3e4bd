/** Generations of an interface's egress chain: fill the inactive one, hook it in front, then
    unhook the others.  Every intermediate state is either filling or swapped, and those two
    shapes carry all safety claims. */
module Firewall {
  import opened Net
  import opened Seqs
  import opened Netfilter
  import opened Kernel

  function Sanitize(iface: string): string {
    seq(|iface|, i requires 0 <= i < |iface| => if iface[i] == '.' || iface[i] == '-' then '_' else iface[i])
  }

  /** `chain_name` */
  function ChainName(iface: string, suffix: string): string {
    "RT_EGRESS_" + Sanitize(iface) + suffix
  }

  function ChainA(iface: string): string { ChainName(iface, "_A") }
  function ChainB(iface: string): string { ChainName(iface, "_B") }
  function ChainBase(iface: string): string { ChainName(iface, "") }

  predicate OwnChain(iface: string, chain: string) {
    chain == ChainBase(iface) || chain == ChainA(iface) || chain == ChainB(iface)
  }

  predicate OwnHook(iface: string, h: Hook) {
    h.iface == iface && OwnChain(iface, h.chain)
  }

  /** The three chains of one interface have three names, whatever the interface is called. */
  lemma OwnNamesDistinct(iface: string)
    ensures ChainBase(iface) != ChainA(iface) && ChainBase(iface) != ChainB(iface)
    ensures ChainA(iface) != ChainB(iface)
  {
    var stem := "RT_EGRESS_" + Sanitize(iface);
    assert ChainA(iface)[|stem| + 1] == 'A' && ChainB(iface)[|stem| + 1] == 'B';
    assert |ChainBase(iface)| == |stem|;
  }

  /** No chain of one interface is a chain of the other. */
  predicate NamesApart(i: string, j: string) {
    !OwnChain(i, ChainBase(j)) && !OwnChain(i, ChainA(j)) && !OwnChain(i, ChainB(j))
  }

  /** Hooks that are not this interface's own, in order. */
  function Others(output: seq<Hook>, iface: string): seq<Hook> {
    if output == [] then []
    else (if OwnHook(iface, output[0]) then [] else [output[0]]) + Others(output[1..], iface)
  }

  function Target(f: Filter, iface: string): string {
    if HasHook(f, iface, ChainA(iface)) then ChainB(iface) else ChainA(iface)
  }

  function Previous(f: Filter, iface: string): string {
    if HasHook(f, iface, ChainA(iface)) then ChainA(iface) else ChainB(iface)
  }

  /** The OUTPUT list without any occurrence of a hook. */
  function Without(output: seq<Hook>, h: Hook): seq<Hook> {
    if output == [] then []
    else (if output[0] == h then [] else [output[0]]) + Without(output[1..], h)
  }

  /** Some first occurrences of the hook are gone. */
  ghost predicate Dropped(o0: seq<Hook>, o: seq<Hook>, h: Hook) {
    exists k :: 0 <= k <= |o0| && o == Without(o0[..k], h) + o0[k..]
  }

  /** The OUTPUT list once the target is hooked: in front, or where it already was. */
  ghost predicate HookedAs(f0: Filter, o: seq<Hook>, iface: string) {
    var h := Hook(iface, Target(f0, iface));
    o == [h] + f0.output || (o == f0.output && h in o)
  }

  /** Hooked, with the legacy chain and then the previous generation on their way out. */
  ghost predicate Unhooked(f0: Filter, o: seq<Hook>, iface: string) {
    exists o1 :: HookedAs(f0, o1, iface) && Leaving(f0, o1, o, iface)
  }

  ghost predicate Leaving(f0: Filter, o1: seq<Hook>, o: seq<Hook>, iface: string) {
    var base, prev := Hook(iface, ChainBase(iface)), Hook(iface, Previous(f0, iface));
    Dropped(o1, o, base) || Dropped(Without(o1, base), o, prev)
  }

  // ---------------------------------------------------------------- the two shapes

  /** Chains outside `t` are as they were. */
  ghost predicate SameChainsBut(f0: Filter, f: Filter, t: string) {
    forall c :: c != t ==> (c in f.chains <==> c in f0.chains)
                           && (c in f.chains ==> f.chains[c] == f0.chains[c])
  }

  /** The chain is as it was, or holds the plan as far as it has come. */
  ghost predicate Partial(f0: Filter, f: Filter, t: string, plan: seq<FwRule>) {
    f.chains == f0.chains || (t in f.chains && f.chains[t] <= plan)
  }

  /** The target is being rebuilt and nothing else has changed. */
  ghost predicate Filling(f0: Filter, f: Filter, iface: string, plan: seq<FwRule>) {
    var t := Target(f0, iface);
    f.output == f0.output && SameChainsBut(f0, f, t) && Partial(f0, f, t, plan)
  }

  /** The target holds the whole plan and is hooked, in front unless it already was hooked;
      older generations are on their way out, foreign hooks are untouched. */
  ghost predicate Swapped(f0: Filter, f: Filter, iface: string, plan: seq<FwRule>) {
    var t := Target(f0, iface);
    && SameChainsBut(f0, f, t)
    && t in f.chains && f.chains[t] == plan
    && HasHook(f, iface, t)
    && Others(f.output, iface) == Others(f0.output, iface)
    && (forall c :: HasHook(f, iface, c) && c != t ==> HasHook(f0, iface, c))
    && (!HasHook(f0, iface, t) ==> f.output[0] == Hook(iface, t))
    && Unhooked(f0, f.output, iface)
  }

  ghost predicate Between(f0: Filter, f: Filter, iface: string, plan: seq<FwRule>) {
    Filling(f0, f, iface, plan) || Swapped(f0, f, iface, plan)
  }

  /** Only this family's filter moved, and only through the two shapes. */
  ghost predicate FwStep(s0: Snapshot, s: Snapshot, fam: Family, iface: string, plan: seq<FwRule>) {
    && s.routes == s0.routes && s.rules == s0.rules && s.main == s0.main
    && s.fw == s0.fw.With(fam, s.fw.Of(fam))
    && Between(s0.fw.Of(fam), s.fw.Of(fam), iface, plan)
  }

  /** Only the new generation is left. */
  ghost predicate Settled(f: Filter, iface: string, plan: seq<FwRule>) {
    exists t <- [ChainA(iface), ChainB(iface)] ::
      && t in f.chains && f.chains[t] == plan && HasHook(f, iface, t)
      && forall c :: HasHook(f, iface, c) && OwnChain(iface, c) ==> c == t
  }

  // ---------------------------------------------------------------- hook lists

  lemma {:induction false} RemoveHookSpec(output: seq<Hook>, h: Hook, iface: string)
    ensures OwnHook(iface, h) ==> Others(RemoveHook(output, h), iface) == Others(output, iface)
    ensures forall g :: g != h ==> (g in RemoveHook(output, h) <==> g in output)
    ensures h in RemoveHook(output, h) ==> h in output
    ensures output != [] && output[0] != h
            ==> RemoveHook(output, h) != [] && RemoveHook(output, h)[0] == output[0]
    ensures h in output ==> |RemoveHook(output, h)| == |output| - 1
  {
    if output != [] && output[0] != h {
      RemoveHookSpec(output[1..], h, iface);
      var r := RemoveHook(output, h);
      assert output == [output[0]] + output[1..];
      assert r[0] == output[0] && r[1..] == RemoveHook(output[1..], h);
    } else if output != [] {
      assert output == [h] + output[1..];
    }
  }

  lemma {:induction false} WithoutSpec(o: seq<Hook>, h: Hook)
    ensures forall g :: g in Without(o, h) <==> g in o && g != h
    ensures h !in o ==> Without(o, h) == o
  {
    if o != [] {
      WithoutSpec(o[1..], h);
      assert o == [o[0]] + o[1..];
    }
  }

  lemma {:induction false} WithoutConcat(a: seq<Hook>, b: seq<Hook>, h: Hook)
    ensures Without(a + b, h) == Without(a, h) + Without(b, h)
  {
    hide Without;
    if a == [] {
      assert a + b == b;
      WithoutSpec([], h);
    } else {
      WithoutConcat(a[1..], b, h);
      assert (a + b)[0] == a[0] && (a + b)[1..] == a[1..] + b;
      WithoutFirst(a + b, h);
      WithoutFirst(a, h);
    }
  }

  lemma WithoutFirst(o: seq<Hook>, h: Hook)
    requires o != []
    ensures Without(o, h) == (if o[0] == h then [] else [o[0]]) + Without(o[1..], h)
  {
  }

  lemma {:induction false} RemoveFirst(a: seq<Hook>, b: seq<Hook>, h: Hook)
    requires h !in a
    ensures RemoveHook(a + [h] + b, h) == a + b
  {
    if a == [] {
      assert a + [h] + b == [h] + b;
    } else {
      RemoveFirst(a[1..], b, h);
      assert (a + [h] + b)[0] == a[0] && (a + [h] + b)[1..] == a[1..] + [h] + b;
    }
  }

  lemma NoneDropped(o: seq<Hook>, h: Hook)
    ensures Dropped(o, o, h)
  {
    assert Without(o[..0], h) + o[0..] == o;
  }

  /** Deleting the next occurrence keeps the form; with none left, all are gone. */
  lemma DropNext(o0: seq<Hook>, o: seq<Hook>, h: Hook)
    requires Dropped(o0, o, h)
    ensures h in o ==> Dropped(o0, RemoveHook(o, h), h)
    ensures h !in o ==> o == Without(o0, h)
  {
    hide Without, RemoveHook;
    var k :| 0 <= k <= |o0| && o == Without(o0[..k], h) + o0[k..];
    WithoutSpec(o0[..k], h);
    assert o0 == o0[..k] + o0[k..];
    if h in o {
      assert h in o0[k..];
      var m := NextHook(o0[k..], h);
      DropAt(o0, k, k + m, h);
    } else {
      WithoutSpec(o0[k..], h);
      WithoutConcat(o0[..k], o0[k..], h);
    }
  }

  lemma {:induction false} NextHook(o: seq<Hook>, h: Hook) returns (m: nat)
    requires h in o
    ensures m < |o| && o[m] == h && h !in o[..m]
  {
    m := 0;
    if o[0] != h {
      assert o == [o[0]] + o[1..];
      var n := NextHook(o[1..], h);
      m := n + 1;
      assert o[..m] == [o[0]] + o[1..][..n];
    }
  }

  lemma OneDropped(h: Hook)
    ensures Without([h], h) == []
  {
  }

  lemma DropAt(o0: seq<Hook>, k: nat, m: nat, h: Hook)
    requires k <= m < |o0| && o0[m] == h && h !in o0[k..][..m - k]
    ensures RemoveHook(Without(o0[..k], h) + o0[k..], h) == Without(o0[..m + 1], h) + o0[m + 1..]
  {
    hide Without, RemoveHook;
    var a, b := o0[k..][..m - k], o0[m + 1..];
    var w := Without(o0[..k], h);
    WithoutSpec(o0[..k], h);
    WithoutSpec(a, h);
    OneDropped(h);
    assert o0[k..] == a + [h] + b;
    RemoveFirst(w + a, b, h);
    assert w + (a + [h] + b) == (w + a) + [h] + b;
    WithoutConcat(o0[..k], a + [h], h);
    WithoutConcat(a, [h], h);
    assert o0[..m + 1] == o0[..k] + (a + [h]);
  }

  lemma {:induction false} OthersKeepForeign(output: seq<Hook>, iface: string, g: Hook)
    requires !OwnHook(iface, g)
    ensures g in Others(output, iface) <==> g in output
  {
    if output != [] {
      OthersKeepForeign(output[1..], iface, g);
      assert output == [output[0]] + output[1..];
    }
  }

  /** What removing hooks of one own chain may do. */
  ghost predicate Unhooking(f0: Filter, f: Filter, iface: string, chain: string) {
    && f.chains == f0.chains
    && (OwnChain(iface, chain) ==> Others(f.output, iface) == Others(f0.output, iface))
    && (forall g :: g in f.output ==> g in f0.output)
    && (forall c :: c != chain ==> (HasHook(f, iface, c) <==> HasHook(f0, iface, c)))
    && (HasHook(f, iface, chain) ==> HasHook(f0, iface, chain))
    && (f0.output == [] || f0.output[0] == Hook(iface, chain)
        || (f.output != [] && f.output[0] == f0.output[0]))
  }

  ghost predicate OnlyFamily(s0: Snapshot, s: Snapshot, fam: Family) {
    && s.routes == s0.routes && s.rules == s0.rules && s.main == s0.main
    && s.fw == s0.fw.With(fam, s.fw.Of(fam))
  }

  lemma NothingUnhooked(s: Snapshot, fam: Family, iface: string, chain: string)
    ensures OnlyFamily(s, s, fam) && Unhooking(s.fw.Of(fam), s.fw.Of(fam), iface, chain)
  {
  }

  lemma UnhookOnce(s0: Snapshot, s1: Snapshot, s: Snapshot, fam: Family, iface: string, chain: string)
    requires OnlyFamily(s0, s1, fam) && Unhooking(s0.fw.Of(fam), s1.fw.Of(fam), iface, chain)
    requires s.routes == s1.routes && s.rules == s1.rules && s.main == s1.main
    requires Hook(iface, chain) in s1.fw.Of(fam).output
    requires s.fw == s1.fw.With(fam, s1.fw.Of(fam).(output := RemoveHook(s1.fw.Of(fam).output, Hook(iface, chain))))
    ensures OnlyFamily(s0, s, fam) && Unhooking(s0.fw.Of(fam), s.fw.Of(fam), iface, chain)
    ensures |s.fw.Of(fam).output| < |s1.fw.Of(fam).output|
  {
    RemoveHookSpec(s1.fw.Of(fam).output, Hook(iface, chain), iface);
  }

  /** `remove_output_hooks`: ends because each round removes one hook. */
  method RemoveOutputHooks(h: Host, fam: Family, iface: string, chain: string)
    returns (ok: bool, ghost steps: seq<Snapshot>)
    modifies h`fw, h`trace, h`failed, h`results
    ensures h.trace == old(h.trace) + steps
    ensures forall s <- steps + [h.Now()] ::
              OnlyFamily(old(h.Now()), s, fam) && Unhooking(old(h.fw).Of(fam), s.fw.Of(fam), iface, chain)
    ensures forall s <- steps + [h.Now()] :: Dropped(old(h.fw).Of(fam).output, s.fw.Of(fam).output, Hook(iface, chain))
    ensures h.Now() == old(h.Now()) || h.Now() in steps
    ensures ok ==> !HasHook(h.fw.Of(fam), iface, chain)
    ensures ok ==> h.fw.Of(fam).output == Without(old(h.fw).Of(fam).output, Hook(iface, chain))
    ensures h.failed >= old(h.failed) && (!ok ==> h.failed > old(h.failed))
  {
    hide Dropped, Without, Unhooking, OnlyFamily;
    steps := [];
    NothingUnhooked(h.Now(), fam, iface, chain);
    NoneDropped(h.fw.Of(fam).output, Hook(iface, chain));
    while true
      invariant h.trace == old(h.trace) + steps
      invariant forall s <- steps + [h.Now()] ::
                  Dropped(old(h.fw).Of(fam).output, s.fw.Of(fam).output, Hook(iface, chain))
      invariant h.Now() == old(h.Now()) || h.Now() in steps
      invariant forall s <- steps + [h.Now()] ::
                  OnlyFamily(old(h.Now()), s, fam) && Unhooking(old(h.fw).Of(fam), s.fw.Of(fam), iface, chain)
      invariant h.failed >= old(h.failed)
      decreases |h.fw.Of(fam).output|
    {
      ghost var here := h.Now();
      assert here in steps + [h.Now()];
      var o, hooks := h.HookList(fam);
      if o != Success { return false, steps; }
      DropNext(old(h.fw).Of(fam).output, h.fw.Of(fam).output, Hook(iface, chain));
      if Hook(iface, chain) !in hooks { return true, steps; }
      o := h.HookDelete(fam, Hook(iface, chain));
      if o != Success { return false, steps; }
      UnhookOnce(old(h.Now()), here, h.Now(), fam, iface, chain);
      steps := steps + [h.Now()];
    }
  }

  // ---------------------------------------------------------------- filling a chain

  ghost predicate FillStep(s0: Snapshot, s: Snapshot, fam: Family, t: string, plan: seq<FwRule>) {
    && OnlyFamily(s0, s, fam)
    && s.fw.Of(fam).output == s0.fw.Of(fam).output
    && SameChainsBut(s0.fw.Of(fam), s.fw.Of(fam), t)
    && Partial(s0.fw.Of(fam), s.fw.Of(fam), t, plan)
  }

  lemma FillTransitive(s0: Snapshot, s1: Snapshot, more: seq<Snapshot>, fam: Family, t: string, plan: seq<FwRule>)
    requires FillStep(s0, s1, fam, t, plan)
    requires forall s <- more :: FillStep(s1, s, fam, t, plan)
    ensures forall s <- more :: FillStep(s0, s, fam, t, plan)
  {
    forall s | s in more ensures FillStep(s0, s, fam, t, plan) {
      assert FillStep(s1, s, fam, t, plan);
    }
  }

  /** `ensure_empty_chain`: a failed creation is ignored, the flush decides. */
  method EnsureEmptyChain(h: Host, fam: Family, t: string, ghost plan: seq<FwRule>)
    returns (ok: bool, ghost steps: seq<Snapshot>)
    modifies h`fw, h`trace, h`failed, h`results
    ensures h.trace == old(h.trace) + steps
    ensures forall s <- steps + [h.Now()] :: FillStep(old(h.Now()), s, fam, t, plan)
    ensures ok ==> h.Now() in steps
    ensures ok ==> h.fw.Of(fam) == old(h.fw).Of(fam).(chains := old(h.fw).Of(fam).chains[t := []])
    ensures h.failed >= old(h.failed) && (!ok ==> h.failed > old(h.failed))
  {
    steps := [];
    var o := h.ChainNew(fam, t);
    if o == Success { steps := [h.Now()]; }
    o := h.ChainFlush(fam, t);
    if o == Success { steps := steps + [h.Now()]; }
    ok := o == Success;
  }

  method Append(h: Host, fam: Family, t: string, rule: FwRule, ghost plan: seq<FwRule>)
    returns (ok: bool, ghost steps: seq<Snapshot>)
    requires t in h.fw.Of(fam).chains && h.fw.Of(fam).chains[t] + [rule] <= plan
    modifies h`fw, h`trace, h`failed, h`results
    ensures h.trace == old(h.trace) + steps
    ensures forall s <- steps + [h.Now()] :: FillStep(old(h.Now()), s, fam, t, plan)
    ensures h.Now() == old(h.Now()) || h.Now() in steps
    ensures ok ==> t in h.fw.Of(fam).chains
                   && h.fw.Of(fam).chains[t] == old(h.fw).Of(fam).chains[t] + [rule]
    ensures h.failed >= old(h.failed) && (!ok ==> h.failed > old(h.failed))
  {
    steps := [];
    var o := h.ChainAppend(fam, t, rule);
    if o == Success { steps := [h.Now()]; }
    ok := o == Success;
  }

  /** Appends a list of rules, stopping at the first failure. */
  method AppendAll(h: Host, fam: Family, t: string, rules: seq<FwRule>, ghost plan: seq<FwRule>)
    returns (ok: bool, ghost steps: seq<Snapshot>)
    requires t in h.fw.Of(fam).chains && h.fw.Of(fam).chains[t] + rules <= plan
    modifies h`fw, h`trace, h`failed, h`results
    ensures h.trace == old(h.trace) + steps
    ensures forall s <- steps + [h.Now()] :: FillStep(old(h.Now()), s, fam, t, plan)
    ensures h.Now() == old(h.Now()) || h.Now() in steps
    ensures ok ==> t in h.fw.Of(fam).chains && h.fw.Of(fam).chains[t] == old(h.fw).Of(fam).chains[t] + rules
    ensures h.failed >= old(h.failed) && (!ok ==> h.failed > old(h.failed))
  {
    steps := [];
    ok := true;
    ghost var s0 := h.Now();
    for i := 0 to |rules|
      invariant h.trace == old(h.trace) + steps
      invariant forall s <- steps + [h.Now()] :: FillStep(s0, s, fam, t, plan)
      invariant h.Now() == s0 || h.Now() in steps
      invariant t in h.fw.Of(fam).chains && h.fw.Of(fam).chains[t] == old(h.fw).Of(fam).chains[t] + rules[..i]
      invariant h.failed >= old(h.failed)
    {
      hide FillStep;
      ghost var here := h.Now();
      assert here in steps + [h.Now()];
      assert rules[..i + 1] == rules[..i] + [rules[i]];
      assert old(h.fw).Of(fam).chains[t] + rules[..i + 1] <= old(h.fw).Of(fam).chains[t] + rules;
      ghost var more;
      ok, more := Append(h, fam, t, rules[i], plan);
      FillTransitive(s0, here, more + [h.Now()], fam, t, plan);
      steps := steps + more;
      if !ok { return; }
    }
    FullSlice(rules);
  }

  /** Everything `apply_family` writes into the inactive chain, in its order. */
  method FillChain(h: Host, fam: Family, t: string, allowed: AllowList, blocked: seq<Cidr>)
    returns (ok: bool, ghost steps: seq<Snapshot>)
    modifies h`fw, h`trace, h`failed, h`results
    ensures h.trace == old(h.trace) + steps
    ensures forall s <- steps + [h.Now()] :: FillStep(old(h.Now()), s, fam, t, Plan(allowed, blocked, fam == V6))
    ensures ok ==> t in h.fw.Of(fam).chains && h.fw.Of(fam).chains[t] == Plan(allowed, blocked, fam == V6)
    ensures ok ==> h.Now() in steps
    ensures ok ==> exists s <- steps ::
              s.fw.Of(fam) == old(h.fw).Of(fam).(chains := old(h.fw).Of(fam).chains[t := []])
    ensures h.failed >= old(h.failed) && (!ok ==> h.failed > old(h.failed))
  {
    hide FillStep, OfFamily, AllowOf, Plan;
    ghost var s0 := h.Now();
    var v6 := fam == V6;
    ghost var plan := Plan(allowed, blocked, v6);
    PlanInOrder(allowed, blocked, v6);
    ok, steps := EnsureEmptyChain(h, fam, t, plan);
    if !ok { return; }
    ghost var empty := h.Now();
    var block := OfFamily(blocked, v6);
    assert [] + block == block;
    ok, steps := Continue(h, fam, t, block, s0, steps, plan);
    if !ok { return; }
    ok, steps := Continue(h, fam, t, [AcceptEstablished, AcceptDhcp, AcceptIcmp(v6)], s0, steps, plan);
    if !ok { return; }
    var allow := LanAllowRulePlan(allowed);
    ok, steps := Continue(h, fam, t, AllowOf(allow, v6), s0, steps, plan);
    if !ok { return; }
    ok, steps := Continue(h, fam, t, [DropAll], s0, steps, plan);
    assert empty in steps;
  }

  lemma PlanInOrder(allowed: AllowList, blocked: seq<Cidr>, v6: bool)
    ensures var plan, block := Plan(allowed, blocked, v6), OfFamily(blocked, v6);
            var allow := AllowOf(AllowPlan(allowed), v6);
            var accept := [AcceptEstablished, AcceptDhcp, AcceptIcmp(v6)];
            && block <= plan && block + accept <= plan && block + accept + allow <= plan
            && block + accept + allow + [DropAll] == plan
  {
  }

  /** One more stretch of rules after the steps taken so far. */
  method Continue(h: Host, fam: Family, t: string, rules: seq<FwRule>, ghost s0: Snapshot,
                  ghost before: seq<Snapshot>, ghost plan: seq<FwRule>)
    returns (ok: bool, ghost steps: seq<Snapshot>)
    requires t in h.fw.Of(fam).chains && h.fw.Of(fam).chains[t] + rules <= plan
    requires forall s <- before + [h.Now()] :: FillStep(s0, s, fam, t, plan)
    requires h.Now() in before
    modifies h`fw, h`trace, h`failed, h`results
    ensures before <= steps && h.trace == old(h.trace) + steps[|before|..]
    ensures forall s <- steps + [h.Now()] :: FillStep(s0, s, fam, t, plan)
    ensures h.Now() in steps
    ensures ok ==> t in h.fw.Of(fam).chains && h.fw.Of(fam).chains[t] == old(h.fw).Of(fam).chains[t] + rules
    ensures h.failed >= old(h.failed) && (!ok ==> h.failed > old(h.failed))
  {
    hide FillStep;
    ghost var here := h.Now();
    ghost var more;
    ok, more := AppendAll(h, fam, t, rules, plan);
    FillTransitive(s0, here, more + [h.Now()], fam, t, plan);
    steps := before + more;
  }

  // ---------------------------------------------------------------- one family

  lemma FillIsFwStep(s0: Snapshot, s: Snapshot, fam: Family, iface: string, plan: seq<FwRule>)
    requires FillStep(s0, s, fam, Target(s0.fw.Of(fam), iface), plan)
    ensures FwStep(s0, s, fam, iface, plan)
  {
  }

  /** From a filled target to a hooked one. */
  lemma HookIsSwapped(s0: Snapshot, s1: Snapshot, s: Snapshot, fam: Family, iface: string, plan: seq<FwRule>)
    requires var t := Target(s0.fw.Of(fam), iface);
             && FillStep(s0, s1, fam, t, plan)
             && t in s1.fw.Of(fam).chains && s1.fw.Of(fam).chains[t] == plan
             && OnlyFamily(s1, s, fam)
             && s.fw.Of(fam).chains == s1.fw.Of(fam).chains
    requires HookedAs(s0.fw.Of(fam), s.fw.Of(fam).output, iface)
    ensures FwStep(s0, s, fam, iface, plan)
    ensures Swapped(s0.fw.Of(fam), s.fw.Of(fam), iface, plan)
  {
    hide ChainName, Dropped, Without;
    var t := Target(s0.fw.Of(fam), iface);
    var o0, o := s0.fw.Of(fam).output, s.fw.Of(fam).output;
    NoneDropped(o, Hook(iface, ChainBase(iface)));
    assert Unhooked(s0.fw.Of(fam), o, iface);
    if o == [Hook(iface, t)] + o0 { assert o[1..] == o0; }
  }

  /** Unhooking another generation keeps the swapped shape. */
  lemma UnhookKeepsSwapped(s0: Snapshot, s1: Snapshot, s: Snapshot, fam: Family, iface: string,
                           plan: seq<FwRule>, c: string)
    requires FwStep(s0, s1, fam, iface, plan) && Swapped(s0.fw.Of(fam), s1.fw.Of(fam), iface, plan)
    requires OwnChain(iface, c) && c != Target(s0.fw.Of(fam), iface)
    requires OnlyFamily(s1, s, fam) && Unhooking(s1.fw.Of(fam), s.fw.Of(fam), iface, c)
    requires Unhooked(s0.fw.Of(fam), s.fw.Of(fam).output, iface)
    ensures FwStep(s0, s, fam, iface, plan) && Swapped(s0.fw.Of(fam), s.fw.Of(fam), iface, plan)
  {
    hide Unhooked, HookedAs;
  }

  /** Unhooks the legacy chain, or after it the previous generation. */
  method UnhookOld(h: Host, fam: Family, iface: string, c: string, ghost s0: Snapshot, ghost plan: seq<FwRule>,
                   ghost o1: seq<Hook>)
    returns (ok: bool, ghost steps: seq<Snapshot>)
    requires OwnChain(iface, c) && c != Target(s0.fw.Of(fam), iface)
    requires FwStep(s0, h.Now(), fam, iface, plan) && Swapped(s0.fw.Of(fam), h.fw.Of(fam), iface, plan)
    requires HookedAs(s0.fw.Of(fam), o1, iface)
    requires || (c == ChainBase(iface) && h.fw.Of(fam).output == o1)
             || (c == Previous(s0.fw.Of(fam), iface)
                 && h.fw.Of(fam).output == Without(o1, Hook(iface, ChainBase(iface))))
    modifies h`fw, h`trace, h`failed, h`results
    ensures h.trace == old(h.trace) + steps
    ensures forall s <- steps + [h.Now()] :: FwStep(s0, s, fam, iface, plan)
    ensures h.Now() == old(h.Now()) || h.Now() in steps
    ensures Swapped(s0.fw.Of(fam), h.fw.Of(fam), iface, plan) && h.fw.Of(fam).chains == old(h.fw).Of(fam).chains
    ensures ok ==> h.fw.Of(fam).output == Without(old(h.fw).Of(fam).output, Hook(iface, c))
    ensures h.failed >= old(h.failed) && (!ok ==> h.failed > old(h.failed))
  {
    hide Dropped, Without, HookedAs, FwStep, Swapped;
    ghost var s1 := h.Now();
    ok, steps := RemoveOutputHooks(h, fam, iface, c);
    forall s | s in steps + [h.Now()]
      ensures FwStep(s0, s, fam, iface, plan) && Swapped(s0.fw.Of(fam), s.fw.Of(fam), iface, plan)
    {
      assert Leaving(s0.fw.Of(fam), o1, s.fw.Of(fam).output, iface);
      UnhookKeepsSwapped(s0, s1, s, fam, iface, plan, c);
    }
    assert h.Now() in steps + [h.Now()];
  }

  /** Check for the hook and insert it in front when the check fails for any reason.  Without a
      failed command it is inserted exactly if it was not hooked. */
  method EnsureHook(h: Host, fam: Family, iface: string, t: string, ghost s0: Snapshot, ghost plan: seq<FwRule>)
    returns (ok: bool, ghost steps: seq<Snapshot>)
    requires t == Target(s0.fw.Of(fam), iface) && FillStep(s0, h.Now(), fam, t, plan)
    requires t in h.fw.Of(fam).chains && h.fw.Of(fam).chains[t] == plan
    modifies h`fw, h`trace, h`failed, h`results
    ensures h.trace == old(h.trace) + steps
    ensures forall s <- steps + [h.Now()] :: FwStep(s0, s, fam, iface, plan)
    ensures h.Now() == old(h.Now()) || h.Now() in steps
    ensures ok ==> Swapped(s0.fw.Of(fam), h.fw.Of(fam), iface, plan)
                   && HookedAs(s0.fw.Of(fam), h.fw.Of(fam).output, iface)
    ensures ok && h.failed == old(h.failed) ==> h.fw.Of(fam) == Hooked(s0.fw.Of(fam), iface, plan)
    ensures h.failed >= old(h.failed) && (!ok ==> h.failed > old(h.failed))
  {
    ghost var s1 := h.Now();
    steps, ok := [], true;
    var o := h.HookCheck(fam, Hook(iface, t));
    if o != Success {
      o := h.HookInsert(fam, Hook(iface, t));
      ok := o == Success;
      if ok { steps := [h.Now()]; }
    }
    if ok {
      HookIsSwapped(s0, s1, h.Now(), fam, iface, plan);
      FilledIs(s0.fw.Of(fam), h.fw.Of(fam), t, plan);
    } else {
      FillIsFwStep(s0, h.Now(), fam, iface, plan);
    }
  }

  /** Three states of every successful run: the target flushed, the target complete and hooked,
      the legacy chain unhooked. */
  function Emptied(f0: Filter, iface: string): Filter {
    f0.(chains := f0.chains[Target(f0, iface) := []])
  }

  function Hooked(f0: Filter, iface: string, plan: seq<FwRule>): Filter {
    var h := Hook(iface, Target(f0, iface));
    Filter(f0.chains[h.chain := plan], if h in f0.output then f0.output else [h] + f0.output)
  }

  function LegacyGone(f0: Filter, iface: string, plan: seq<FwRule>): Filter {
    WithoutLegacy(Hooked(f0, iface, plan), iface)
  }

  function WithoutLegacy(f: Filter, iface: string): Filter {
    f.(output := Without(f.output, Hook(iface, ChainBase(iface))))
  }

  lemma AllVisited(s0: Snapshot, s1: Snapshot, before: seq<Snapshot>, after: seq<Snapshot>, fam: Family, iface: string,
                   plan: seq<FwRule>)
    requires exists s <- before :: s.fw.Of(fam) == Emptied(s0.fw.Of(fam), iface)
    requires s1 in before && s1.fw.Of(fam) == Hooked(s0.fw.Of(fam), iface, plan)
    requires exists s <- [s1] + after :: s.fw.Of(fam) == WithoutLegacy(s1.fw.Of(fam), iface)
    ensures Visits(s0, before + after, fam, iface, plan)
  {
    var f0 := s0.fw.Of(fam);
    var e :| e in before && e.fw.Of(fam) == Emptied(f0, iface);
    var g :| g in [s1] + after && g.fw.Of(fam) == WithoutLegacy(s1.fw.Of(fam), iface);
    assert e in before + after && s1 in before + after && g in before + after;
  }

  ghost predicate Visits(s0: Snapshot, steps: seq<Snapshot>, fam: Family, iface: string, plan: seq<FwRule>) {
    var f0 := s0.fw.Of(fam);
    && (exists s <- steps :: s.fw.Of(fam) == Emptied(f0, iface))
    && (exists s <- steps :: s.fw.Of(fam) == Hooked(f0, iface, plan))
    && (exists s <- steps :: s.fw.Of(fam) == LegacyGone(f0, iface, plan))
  }

  lemma FilledIs(f0: Filter, f: Filter, t: string, plan: seq<FwRule>)
    requires SameChainsBut(f0, f, t) && t in f.chains && f.chains[t] == plan
    ensures f.chains == f0.chains[t := plan]
  {
  }

  lemma SettledAfter(f0: Filter, f: Filter, f1: Filter, iface: string, plan: seq<FwRule>)
    requires Swapped(f0, f, iface, plan)
    requires f.output == Without(Without(f1.output, Hook(iface, ChainBase(iface))), Hook(iface, Previous(f0, iface)))
    ensures Settled(f, iface, plan)
  {
    hide ChainName;
    WithoutSpec(f1.output, Hook(iface, ChainBase(iface)));
    WithoutSpec(Without(f1.output, Hook(iface, ChainBase(iface))), Hook(iface, Previous(f0, iface)));
    assert Target(f0, iface) in [ChainA(iface), ChainB(iface)];
  }

  lemma FillIsFwSteps(s0: Snapshot, steps: seq<Snapshot>, fam: Family, iface: string, plan: seq<FwRule>)
    requires forall s <- steps :: FillStep(s0, s, fam, Target(s0.fw.Of(fam), iface), plan)
    ensures forall s <- steps :: FwStep(s0, s, fam, iface, plan)
  {
    forall s | s in steps ensures FwStep(s0, s, fam, iface, plan) {
      FillIsFwStep(s0, s, fam, iface, plan);
    }
  }

  /** `apply_family` */
  method ApplyFamily(h: Host, fam: Family, iface: string, allowed: AllowList, blocked: seq<Cidr>)
    returns (ok: bool, ghost steps: seq<Snapshot>)
    modifies h`fw, h`trace, h`failed, h`results
    ensures h.trace == old(h.trace) + steps
    ensures forall s <- steps + [h.Now()] ::
              FwStep(old(h.Now()), s, fam, iface, Plan(allowed, blocked, fam == V6))
    ensures ok ==> && Settled(h.fw.Of(fam), iface, Plan(allowed, blocked, fam == V6))
                   && Swapped(old(h.fw).Of(fam), h.fw.Of(fam), iface, Plan(allowed, blocked, fam == V6))
    ensures h.failed == old(h.failed) ==> Visits(old(h.Now()), steps, fam, iface, Plan(allowed, blocked, fam == V6))
    ensures h.failed >= old(h.failed) && (!ok ==> h.failed > old(h.failed))
  {
    hide FillStep, FwStep, Swapped, Plan, Settled, ChainName, HasHook, HookedAs, WithoutLegacy, Hooked, Visits;
    ghost var plan := Plan(allowed, blocked, fam == V6);
    ghost var s0 := h.Now();
    ghost var more;
    steps := [];
    OwnNamesDistinct(iface);
    NoStep(s0, fam, iface, plan);
    var o, hooks := h.HookList(fam);
    if o != Success { return false, steps; }
    var t := if Hook(iface, ChainA(iface)) in hooks then ChainB(iface) else ChainA(iface);
    TargetRead(s0.fw.Of(fam), iface, hooks);
    ok, steps := FillChain(h, fam, t, allowed, blocked);
    FillIsFwSteps(s0, steps + [h.Now()], fam, iface, plan);
    if !ok { return; }
    assert h.Now() in steps + [h.Now()];
    ok, more := EnsureHook(h, fam, iface, t, s0, plan);
    steps := steps + more;
    if !ok { return; }
    assert h.Now() in steps;
    ghost var s1, hooked := h.Now(), steps;
    ok, more := UnhookOthers(h, fam, iface, t, s0, plan);
    steps := steps + more;
    if h.failed == old(h.failed) { AllVisited(s0, s1, hooked, more, fam, iface, plan); }
  }

  /** The old generations in the order of the source, the new one skipped. */
  method UnhookOthers(h: Host, fam: Family, iface: string, t: string, ghost s0: Snapshot, ghost plan: seq<FwRule>)
    returns (ok: bool, ghost steps: seq<Snapshot>)
    requires t == Target(s0.fw.Of(fam), iface)
    requires FwStep(s0, h.Now(), fam, iface, plan) && Swapped(s0.fw.Of(fam), h.fw.Of(fam), iface, plan)
    requires HookedAs(s0.fw.Of(fam), h.fw.Of(fam).output, iface)
    modifies h`fw, h`trace, h`failed, h`results
    ensures h.trace == old(h.trace) + steps
    ensures forall s <- steps + [h.Now()] :: FwStep(s0, s, fam, iface, plan)
    ensures ok ==> Settled(h.fw.Of(fam), iface, plan) && Swapped(s0.fw.Of(fam), h.fw.Of(fam), iface, plan)
    ensures ok ==> exists s <- [old(h.Now())] + steps :: s.fw.Of(fam) == WithoutLegacy(old(h.fw).Of(fam), iface)
    ensures h.failed >= old(h.failed) && (!ok ==> h.failed > old(h.failed))
  {
    hide FwStep, Swapped, Settled, ChainName, HookedAs, Without;
    OwnNamesDistinct(iface);
    ghost var s1 := h.Now();
    ok, steps := UnhookOld(h, fam, iface, ChainBase(iface), s0, plan, s1.fw.Of(fam).output);
    if !ok { return; }
    assert h.Now() in steps + [h.Now()];
    ghost var s2 := h.Now();
    var previous := if t == ChainA(iface) then ChainB(iface) else ChainA(iface);
    ghost var more;
    ok, more := UnhookOld(h, fam, iface, previous, s0, plan, s1.fw.Of(fam).output);
    steps := steps + more;
    if ok {
      SettledAfter(s0.fw.Of(fam), h.fw.Of(fam), s1.fw.Of(fam), iface, plan);
      assert s2 in [s1] + steps && s2.fw.Of(fam) == WithoutLegacy(s1.fw.Of(fam), iface);
    }
  }

  lemma NoStep(s: Snapshot, fam: Family, iface: string, plan: seq<FwRule>)
    ensures FwStep(s, s, fam, iface, plan)
  {
  }

  lemma TargetRead(f: Filter, iface: string, hooks: seq<Hook>)
    requires hooks == f.output
    ensures Target(f, iface) == if Hook(iface, ChainA(iface)) in hooks then ChainB(iface) else ChainA(iface)
    ensures Previous(f, iface) == if Hook(iface, ChainA(iface)) in hooks then ChainA(iface) else ChainB(iface)
  {
  }

  // ---------------------------------------------------------------- teardown

  predicate ToolChain(chain: string) {
    "RT_EGRESS_" <= chain
  }

  /** The names: dots and dashes become underscores, and only such chains are the tool's. */
  lemma ChainNames(iface: string)
    ensures ChainA("eth0.1-b") == "RT_EGRESS_eth0_1_b_A" && ChainB("eth0.1-b") == "RT_EGRESS_eth0_1_b_B"
    ensures ChainBase("wlan0") == "RT_EGRESS_wlan0"
    ensures ToolChain(ChainA(iface)) && ToolChain(ChainB(iface)) && ToolChain(ChainBase(iface))
    ensures !ToolChain("DOCKER-USER")
  {
    assert Sanitize("eth0.1-b") == "eth0_1_b" && Sanitize("wlan0") == "wlan0";
    assert "DOCKER-USER"[0] != "RT_EGRESS_"[0];
  }

  function InterfacesHooking(hooks: seq<Hook>, chain: string): seq<string> {
    FlatMap(hooks, (g: Hook) => if g.chain == chain then [g.iface] else [])
  }

  lemma HookingMember(hooks: seq<Hook>, chain: string, iface: string)
    ensures iface in InterfacesHooking(hooks, chain) <==> Hook(iface, chain) in hooks
  {
    FlatMapMember(hooks, (g: Hook) => if g.chain == chain then [g.iface] else [], iface);
    if iface in InterfacesHooking(hooks, chain) {
      var g :| g in hooks && iface in (if g.chain == chain then [g.iface] else []);
      assert g == Hook(iface, chain);
    }
  }

  /** Nothing new is hooked and no chain appears. */
  ghost predicate Shrinking(f0: Filter, f: Filter) {
    (forall g :: g in f.output ==> g in f0.output) && (forall c :: c in f.chains ==> c in f0.chains)
  }

  /** Hooks into chains of others, in order. */
  function ForeignHooks(output: seq<Hook>): seq<Hook> {
    if output == [] then []
    else (if ToolChain(output[0].chain) then [] else [output[0]]) + ForeignHooks(output[1..])
  }

  /** What the tool did not make is untouched: chains with their rules, and hooks in their order. */
  ghost predicate ForeignKept(f0: Filter, f: Filter) {
    && (forall c :: !ToolChain(c) ==> (c in f.chains <==> c in f0.chains)
                                      && (c in f.chains ==> f.chains[c] == f0.chains[c]))
    && ForeignHooks(f.output) == ForeignHooks(f0.output)
  }

  lemma {:induction false} ForeignConcat(a: seq<Hook>, b: seq<Hook>)
    ensures ForeignHooks(a + b) == ForeignHooks(a) + ForeignHooks(b)
  {
    hide ToolChain;
    if a == [] {
      assert a + b == b;
    } else {
      var rest := a[1..];
      ForeignConcat(rest, b);
      assert a + b == [a[0]] + (rest + b) && a == [a[0]] + rest;
      ForeignHead(a[0], rest + b);
      ForeignHead(a[0], rest);
    }
  }

  lemma ForeignHead(h: Hook, rest: seq<Hook>)
    ensures ForeignHooks([h] + rest) == (if ToolChain(h.chain) then [] else [h]) + ForeignHooks(rest)
  {
    assert ([h] + rest)[1..] == rest;
  }

  lemma {:induction false} ForeignWithout(output: seq<Hook>, h: Hook)
    requires ToolChain(h.chain)
    ensures ForeignHooks(Without(output, h)) == ForeignHooks(output)
  {
    hide ToolChain;
    if output != [] {
      ForeignWithout(output[1..], h);
      if output[0] != h {
        var rest := Without(output[1..], h);
        assert Without(output, h) == [output[0]] + rest && ([output[0]] + rest)[1..] == rest;
      } else {
        assert Without(output, h) == Without(output[1..], h);
      }
    }
  }

  /** Unhooking a chain of the tool leaves the hooks of others alone. */
  lemma ForeignDropped(o0: seq<Hook>, o: seq<Hook>, h: Hook)
    requires Dropped(o0, o, h) && ToolChain(h.chain)
    ensures ForeignHooks(o) == ForeignHooks(o0)
  {
    hide ToolChain, Without, ForeignHooks;
    var k :| 0 <= k <= |o0| && o == Without(o0[..k], h) + o0[k..];
    ForeignConcat(Without(o0[..k], h), o0[k..]);
    ForeignWithout(o0[..k], h);
    ForeignConcat(o0[..k], o0[k..]);
    assert o0 == o0[..k] + o0[k..];
  }

  lemma HooksShrunk(f0: Filter, f: Filter)
    requires Shrinking(f0, f)
    ensures forall g :: g in f.output ==> g in f0.output
  {
  }

  lemma NothingShrunk(f: Filter, chain: string)
    ensures Shrinking(f, f) && ForeignKept(f, f)
  {
  }

  lemma UnhookStep(f0: Filter, f1: Filter, f: Filter, iface: string, chain: string)
    requires Shrinking(f0, f1) && f1.chains == f0.chains && (ToolChain(chain) ==> ForeignKept(f0, f1))
    requires Unhooking(f1, f, iface, chain) && Dropped(f1.output, f.output, Hook(iface, chain))
    ensures Shrinking(f0, f) && f.chains == f0.chains && (ToolChain(chain) ==> ForeignKept(f0, f))
    ensures forall other :: !HasHook(f1, other, chain) ==> !HasHook(f, other, chain)
  {
    if ToolChain(chain) { ForeignDropped(f1.output, f.output, Hook(iface, chain)); }
  }

  /** Flushing or deleting a chain, or neither. */
  lemma ChainStep(f0: Filter, f1: Filter, f: Filter, chain: string)
    requires Shrinking(f0, f1) && (ToolChain(chain) ==> ForeignKept(f0, f1))
    requires || f == f1 || f == f1.(chains := f1.chains - {chain})
             || (chain in f1.chains && f == f1.(chains := f1.chains[chain := []]))
    ensures Shrinking(f0, f) && (ToolChain(chain) ==> ForeignKept(f0, f))
  {
  }

  /** Unhook a chain from every interface, then flush and delete it, ignoring failures. */
  method DropChain(h: Host, fam: Family, chain: string) returns (ghost steps: seq<Snapshot>)
    modifies h`fw, h`trace, h`failed, h`results
    ensures h.trace == old(h.trace) + steps
    ensures Shrinking(old(h.fw).Of(fam), h.fw.Of(fam))
    ensures ToolChain(chain) ==> ForeignKept(old(h.fw).Of(fam), h.fw.Of(fam))
    ensures h.fw == old(h.fw).With(fam, h.fw.Of(fam))
    ensures h.failed == old(h.failed) ==>
              chain !in h.fw.Of(fam).chains && forall g <- h.fw.Of(fam).output :: g.chain != chain
    ensures h.failed >= old(h.failed)
  {
    hide Dropped, Without, Shrinking, ForeignKept, Unhooking, ToolChain;
    steps := [];
    ghost var more;
    ghost var f0 := h.fw.Of(fam);
    NothingShrunk(f0, chain);
    var o, hooks := h.HookList(fam);
    if o == Success {
      var ifaces := InterfacesHooking(hooks, chain);
      for i := 0 to |ifaces|
        invariant h.trace == old(h.trace) + steps
        invariant Shrinking(f0, h.fw.Of(fam)) && h.fw.Of(fam).chains == f0.chains
        invariant ToolChain(chain) ==> ForeignKept(f0, h.fw.Of(fam))
        invariant h.fw == old(h.fw).With(fam, h.fw.Of(fam))
        invariant h.failed >= old(h.failed)
        invariant h.failed == old(h.failed) ==> forall iface <- ifaces[..i] :: !HasHook(h.fw.Of(fam), iface, chain)
      {
        var ok;
        ghost var f1 := h.fw.Of(fam);
        ok, more := RemoveOutputHooks(h, fam, ifaces[i], chain);
        assert h.Now() in more + [h.Now()];
        steps := steps + more;
        UnhookStep(f0, f1, h.fw.Of(fam), ifaces[i], chain);
        if h.failed == old(h.failed) {
          forall iface | iface in ifaces[..i + 1] ensures !HasHook(h.fw.Of(fam), iface, chain) {
            assert iface in ifaces[..i] || iface == ifaces[i];
          }
        }
      }
      FullSlice(ifaces);
      if h.failed == old(h.failed) {
        HooksShrunk(f0, h.fw.Of(fam));
        forall g | g in h.fw.Of(fam).output ensures g.chain != chain {
          HookingMember(hooks, chain, g.iface);
          assert g.chain == chain ==> g == Hook(g.iface, chain);
        }
      }
    }
    ghost var f2 := h.fw.Of(fam);
    o := h.ChainFlush(fam, chain);
    if o == Success { steps := steps + [h.Now()]; }
    ChainStep(f0, f2, h.fw.Of(fam), chain);
    ghost var f3 := h.fw.Of(fam);
    o := h.ChainDelete(fam, chain);
    if o == Success { steps := steps + [h.Now()]; }
    ChainStep(f0, f3, h.fw.Of(fam), chain);
  }

  /** `cleanup_family`: without a failing command no chain of the tool is left or hooked. */
  method CleanupFamily(h: Host, fam: Family) returns (ghost steps: seq<Snapshot>)
    modifies h`fw, h`trace, h`failed, h`results
    ensures h.trace == old(h.trace) + steps
    ensures h.fw == old(h.fw).With(fam, h.fw.Of(fam)) && Shrinking(old(h.fw).Of(fam), h.fw.Of(fam))
    ensures ForeignKept(old(h.fw).Of(fam), h.fw.Of(fam))
    ensures h.failed == old(h.failed) ==>
              forall c <- old(h.fw).Of(fam).chains :: ToolChain(c) ==>
                c !in h.fw.Of(fam).chains && forall g <- h.fw.Of(fam).output :: g.chain != c
    ensures h.failed >= old(h.failed)
  {
    steps := [];
    ghost var more;
    var o, names := h.ChainList(fam);
    ghost var listed := h.failed;
    for i := 0 to |names|
      invariant h.failed >= listed
      invariant h.trace == old(h.trace) + steps
      invariant h.fw == old(h.fw).With(fam, h.fw.Of(fam)) && Shrinking(old(h.fw).Of(fam), h.fw.Of(fam))
      invariant ForeignKept(old(h.fw).Of(fam), h.fw.Of(fam))
      invariant h.failed >= old(h.failed)
      invariant h.failed == old(h.failed) ==>
                  forall c <- names[..i] :: ToolChain(c) ==>
                    c !in h.fw.Of(fam).chains && forall g <- h.fw.Of(fam).output :: g.chain != c
    {
      if ToolChain(names[i]) {
        more := DropChain(h, fam, names[i]);
        steps := steps + more;
      }
    }
    FullSlice(names);
  }
}
