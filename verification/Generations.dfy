/** What the two shapes of the generation swap guarantee: an interface that was ever guarded
    stays guarded through any number of runs failing anywhere, and a swap changes the verdict
    function at one instant. */
module Generations {
  import opened Net
  import opened Model
  import opened Netfilter
  import opened Kernel
  import opened Firewall

  ghost predicate EndsInDrop(plan: seq<FwRule>) {
    plan != [] && plan[|plan| - 1] == DropAll
  }

  lemma PlanEndsInDrop(allowed: AllowList, blocked: seq<Cidr>, v6: bool)
    ensures EndsInDrop(Plan(allowed, blocked, v6))
  {
  }

  /** A hooked _A chain is complete; a hooked _B chain is complete unless _A is hooked too. */
  ghost predicate Sound(f: Filter, iface: string) {
    && (HasHook(f, iface, ChainA(iface)) ==> Complete(f, ChainA(iface)))
    && (HasHook(f, iface, ChainB(iface)) ==> Complete(f, ChainB(iface)) || HasHook(f, iface, ChainA(iface)))
  }

  lemma FillingKeepsSound(f0: Filter, f: Filter, iface: string, plan: seq<FwRule>)
    requires Sound(f0, iface) && Filling(f0, f, iface, plan)
    ensures Sound(f, iface)
    ensures Guarded(f0, iface) ==> Guarded(f, iface)
  {
    OwnNamesDistinct(iface);
    hide ChainName;
    if Guarded(f0, iface) {
      var h :| h in f0.output && h.iface == iface && Complete(f0, h.chain);
      if h.chain == Target(f0, iface) {
        assert h == Hook(iface, h.chain);
        var a := Hook(iface, ChainA(iface));
        assert a in f.output && Complete(f, a.chain);
      } else {
        assert Complete(f, h.chain);
      }
    }
  }

  lemma SwappedKeepsSound(f0: Filter, f: Filter, iface: string, plan: seq<FwRule>)
    requires Sound(f0, iface) && Swapped(f0, f, iface, plan) && EndsInDrop(plan)
    ensures Sound(f, iface) && Guarded(f, iface)
  {
    OwnNamesDistinct(iface);
    hide ChainName;
    var t := Hook(iface, Target(f0, iface));
    assert t in f.output && Complete(f, t.chain);
  }

  /** The firewall never opens: whatever fails, in every state between the commands of a run
      the invariant holds and a guarded interface is guarded. */
  lemma NeverOpens(f0: Filter, f: Filter, iface: string, plan: seq<FwRule>)
    requires Sound(f0, iface) && Between(f0, f, iface, plan) && EndsInDrop(plan)
    ensures Sound(f, iface)
    ensures Guarded(f0, iface) ==> Guarded(f, iface)
  {
    if Filling(f0, f, iface, plan) {
      FillingKeepsSound(f0, f, iface, plan);
    } else {
      SwappedKeepsSound(f0, f, iface, plan);
    }
  }

  lemma {:induction false} OthersKeep(a: seq<Hook>, b: seq<Hook>, iface: string, g: Hook)
    requires Others(a, iface) == Others(b, iface) && !OwnHook(iface, g)
    ensures g in a <==> g in b
  {
    OthersKeepForeign(a, iface, g);
    OthersKeepForeign(b, iface, g);
  }

  /** A run for another interface leaves this interface's chains and hooks alone. */
  lemma ForeignRun(f0: Filter, f: Filter, iface: string, other: string, plan: seq<FwRule>)
    requires other != iface && NamesApart(other, iface) && Between(f0, f, other, plan)
    ensures forall c :: HasHook(f, iface, c) <==> HasHook(f0, iface, c)
    ensures forall c :: OwnChain(iface, c) ==>
              (c in f.chains <==> c in f0.chains) && (c in f.chains ==> f.chains[c] == f0.chains[c])
  {
    hide ChainName;
    forall c ensures HasHook(f, iface, c) <==> HasHook(f0, iface, c) {
      OthersKeep(f.output, f0.output, other, Hook(iface, c));
    }
    assert OwnChain(other, Target(f0, other));
  }

  /** The interface has its own guard: a complete chain among its own three is hooked. */
  ghost predicate OwnGuard(f: Filter, iface: string) {
    exists c <- [ChainBase(iface), ChainA(iface), ChainB(iface)] :: HasHook(f, iface, c) && Complete(f, c)
  }

  lemma OwnGuardKept(f0: Filter, f: Filter, iface: string, plan: seq<FwRule>)
    requires Sound(f0, iface) && OwnGuard(f0, iface) && Between(f0, f, iface, plan) && EndsInDrop(plan)
    ensures OwnGuard(f, iface)
  {
    OwnNamesDistinct(iface);
    hide ChainName;
    var names := [ChainBase(iface), ChainA(iface), ChainB(iface)];
    var c :| c in names && HasHook(f0, iface, c) && Complete(f0, c);
    var t := Target(f0, iface);
    assert t in names && ChainA(iface) in names;
    if Filling(f0, f, iface, plan) {
      if c == t {
        assert HasHook(f, iface, ChainA(iface)) && Complete(f, ChainA(iface));
      } else {
        assert HasHook(f, iface, c) && Complete(f, c);
      }
    } else {
      assert HasHook(f, iface, t) && Complete(f, t);
    }
  }

  datatype FwRun = FwRun(iface: string, plan: seq<FwRule>)

  /** `fs[i + 1]` is wherever run `i`, started in `fs[i]`, stopped: finished, failed or killed. */
  ghost predicate Runs(fs: seq<Filter>, runs: seq<FwRun>) {
    && |fs| == |runs| + 1
    && (forall r <- runs :: EndsInDrop(r.plan))
    && forall i :: 0 <= i < |runs| ==> Between(fs[i], fs[i + 1], runs[i].iface, runs[i].plan)
  }

  /** Over any sequence of runs for any interfaces, each stopping anywhere: once an interface
      is guarded it is guarded in every later state. */
  lemma {:induction false} GuardedForever(fs: seq<Filter>, runs: seq<FwRun>, iface: string)
    requires Runs(fs, runs) && Sound(fs[0], iface) && OwnGuard(fs[0], iface)
    requires forall r <- runs :: r.iface == iface || NamesApart(r.iface, iface)
    ensures forall f <- fs :: Sound(f, iface) && OwnGuard(f, iface) && Guarded(f, iface)
  {
    hide Between, ChainName, Sound, OwnGuard, Guarded, NamesApart;
    OwnGuardGuards(fs[0], iface);
    if |runs| > 0 {
      var r := runs[0];
      assert r in runs;
      if r.iface == iface {
        NeverOpens(fs[0], fs[1], iface, r.plan);
        OwnGuardKept(fs[0], fs[1], iface, r.plan);
      } else {
        ForeignRun(fs[0], fs[1], iface, r.iface, r.plan);
        ForeignKeepsGuard(fs[0], fs[1], iface);
      }
      assert Runs(fs[1..], runs[1..]);
      GuardedForever(fs[1..], runs[1..], iface);
      assert fs == [fs[0]] + fs[1..];
    }
  }

  lemma OwnGuardGuards(f: Filter, iface: string)
    requires OwnGuard(f, iface)
    ensures Guarded(f, iface)
  {
    var c :| c in [ChainBase(iface), ChainA(iface), ChainB(iface)] && HasHook(f, iface, c) && Complete(f, c);
    assert Hook(iface, c) in f.output && Complete(f, Hook(iface, c).chain);
  }

  lemma ForeignKeepsGuard(f0: Filter, f: Filter, iface: string)
    requires forall c :: HasHook(f, iface, c) <==> HasHook(f0, iface, c)
    requires forall c :: OwnChain(iface, c) ==>
              (c in f.chains <==> c in f0.chains) && (c in f.chains ==> f.chains[c] == f0.chains[c])
    ensures Sound(f0, iface) ==> Sound(f, iface)
    ensures OwnGuard(f0, iface) ==> OwnGuard(f, iface)
  {
    hide ChainName;
    if OwnGuard(f0, iface) {
      var c :| c in [ChainBase(iface), ChainA(iface), ChainB(iface)] && HasHook(f0, iface, c) && Complete(f0, c);
      assert HasHook(f, iface, c) && Complete(f, c);
    }
  }

  /** A settled interface has its own guard and satisfies the invariant. */
  lemma SettledIsGuarded(f: Filter, iface: string, plan: seq<FwRule>)
    requires Settled(f, iface, plan) && EndsInDrop(plan)
    ensures OwnGuard(f, iface) && Sound(f, iface) && Guarded(f, iface)
  {
    OwnNamesDistinct(iface);
    hide ChainName;
    var t :| t in [ChainA(iface), ChainB(iface)] && t in f.chains && f.chains[t] == plan && HasHook(f, iface, t)
             && forall c :: HasHook(f, iface, c) && OwnChain(iface, c) ==> c == t;
    assert t in [ChainBase(iface), ChainA(iface), ChainB(iface)] && Complete(f, t);
    OwnGuardGuards(f, iface);
  }

  /** Once one run for an interface has succeeded, the interface is guarded in every later state. */
  lemma GuardedSinceSuccess(fs: seq<Filter>, runs: seq<FwRun>, iface: string, plan: seq<FwRule>)
    requires Runs(fs, runs) && Settled(fs[0], iface, plan) && EndsInDrop(plan)
    requires forall r <- runs :: r.iface == iface || NamesApart(r.iface, iface)
    ensures forall f <- fs :: Guarded(f, iface)
  {
    SettledIsGuarded(fs[0], iface, plan);
    GuardedForever(fs, runs, iface);
  }

  // ---------------------------------------------------------------- verdicts during a swap

  lemma {:induction false} VerdictIgnores(c0: map<string, seq<FwRule>>, c: map<string, seq<FwRule>>,
                                          output: seq<Hook>, t: string, i: string, p: Packet)
    requires forall d :: d != t ==> (d in c <==> d in c0) && (d in c ==> c[d] == c0[d])
    requires forall h <- output :: h.iface == i ==> h.chain != t
    ensures OutputVerdict(c, output, i, p) == OutputVerdict(c0, output, i, p)
  {
    if output != [] { VerdictIgnores(c0, c, output[1..], t, i, p); }
  }

  lemma {:induction false} VerdictOfOthers(chains: map<string, seq<FwRule>>, output: seq<Hook>,
                                           iface: string, i: string, p: Packet)
    requires i != iface
    ensures OutputVerdict(chains, output, i, p) == OutputVerdict(chains, Others(output, iface), i, p)
  {
    if output != [] {
      VerdictOfOthers(chains, output[1..], iface, i, p);
      var rest := Others(output, iface);
      if !OwnHook(iface, output[0]) {
        assert rest[0] == output[0] && rest[1..] == Others(output[1..], iface);
      } else {
        assert rest == Others(output[1..], iface);
      }
    }
  }

  /** Atomic swap: unless the generation being rebuilt is still hooked, every intermediate
      state gives all packets the verdicts of before, or gives the interface's packets the
      verdicts of the new plan; other interfaces never see a difference. */
  lemma VerdictsSwapAtomically(f0: Filter, f: Filter, iface: string, plan: seq<FwRule>)
    requires Between(f0, f, iface, plan) && EndsInDrop(plan)
    requires forall h <- f0.output :: h.chain != Target(f0, iface)
    ensures || (forall p ::
                  OutputVerdict(f.chains, f.output, iface, p) == OutputVerdict(f0.chains, f0.output, iface, p))
            || (forall p :: OutputVerdict(f.chains, f.output, iface, p) == ChainVerdict(plan, p))
    ensures forall i, p :: i != iface ==>
              OutputVerdict(f.chains, f.output, i, p) == OutputVerdict(f0.chains, f0.output, i, p)
  {
    hide ChainName;
    var t := Target(f0, iface);
    forall i, p | i != iface
      ensures OutputVerdict(f.chains, f.output, i, p) == OutputVerdict(f0.chains, f0.output, i, p)
    {
      VerdictOfOthers(f.chains, f.output, iface, i, p);
      VerdictOfOthers(f0.chains, f0.output, iface, i, p);
      forall h | h in Others(f0.output, iface) && h.iface == i ensures h.chain != t {
        OthersKeepForeign(f0.output, iface, h);
      }
      VerdictIgnores(f0.chains, f.chains, Others(f0.output, iface), t, i, p);
    }
    if Filling(f0, f, iface, plan) {
      forall p { VerdictIgnores(f0.chains, f.chains, f0.output, t, iface, p); }
    } else {
      forall p ensures OutputVerdict(f.chains, f.output, iface, p) == ChainVerdict(plan, p) {
        CompleteDecides(plan, p);
      }
    }
  }

  lemma {:induction false} OnlyHookDecides(chains: map<string, seq<FwRule>>, output: seq<Hook>, iface: string,
                                           t: string, p: Packet)
    requires t in chains && EndsInDrop(chains[t]) && Hook(iface, t) in output
    requires forall h <- output :: h.iface == iface ==> h.chain == t
    ensures OutputVerdict(chains, output, iface, p) == ChainVerdict(chains[t], p)
  {
    CompleteDecides(chains[t], p);
    if output[0].iface != iface { OnlyHookDecides(chains, output[1..], iface, t, p); }
  }

  /** Every packet leaving the interface gets the verdict of before or that of the new plan. */
  ghost predicate OldOrNew(f0: Filter, f: Filter, iface: string, plan: seq<FwRule>) {
    forall p ::
      || OutputVerdict(f.chains, f.output, iface, p) == OutputVerdict(f0.chains, f0.output, iface, p)
      || OutputVerdict(f.chains, f.output, iface, p) == ChainVerdict(plan, p)
  }

  /** Only the tool hooks this interface. */
  ghost predicate NoForeign(f: Filter, iface: string) {
    forall h <- f.output :: h.iface == iface ==> OwnChain(iface, h.chain)
  }

  /** Can be checked before the run: if the chain to be rebuilt is hooked, neither flushing it
      nor unhooking the legacy chain before it takes over exposes a third verdict. */
  ghost predicate SwapSafe(f0: Filter, iface: string, plan: seq<FwRule>) {
    HasHook(f0, iface, Target(f0, iface)) ==>
      OldOrNew(f0, Emptied(f0, iface), iface, plan) && OldOrNew(f0, LegacyGone(f0, iface, plan), iface, plan)
  }

  lemma {:induction false} PrefixVerdict(a: seq<FwRule>, plan: seq<FwRule>, p: Packet)
    requires a <= plan
    ensures ChainVerdict(a, p).Some? ==> ChainVerdict(a, p) == ChainVerdict(plan, p)
  {
    if a != [] { PrefixVerdict(a[1..], plan[1..], p); }
  }

  /** A part of the plan in the target decides as the plan does, or leaves it to the others. */
  lemma {:induction false} PartialVerdict(c0: map<string, seq<FwRule>>, c: map<string, seq<FwRule>>,
                                          output: seq<Hook>, t: string, i: string, plan: seq<FwRule>, p: Packet)
    requires forall d :: d != t ==> (d in c <==> d in c0) && (d in c ==> c[d] == c0[d])
    requires t in c0 && c0[t] == [] && t in c && c[t] <= plan
    ensures || OutputVerdict(c, output, i, p) == OutputVerdict(c0, output, i, p)
            || OutputVerdict(c, output, i, p) == ChainVerdict(plan, p)
  {
    if output != [] {
      PrefixVerdict(c[t], plan, p);
      PartialVerdict(c0, c, output[1..], t, i, plan, p);
    }
  }

  /** Without a chain the verdict is the same, or it was that chain's. */
  lemma {:induction false} WithoutVerdict(c: map<string, seq<FwRule>>, o: seq<Hook>, h: Hook, i: string, p: Packet)
    ensures || OutputVerdict(c, o, i, p) == OutputVerdict(c, Without(o, h), i, p)
            || (h.iface == i && h.chain in c && OutputVerdict(c, o, i, p) == ChainVerdict(c[h.chain], p)
                && ChainVerdict(c[h.chain], p).Some?)
  {
    if o != [] {
      WithoutVerdict(c, o[1..], h, i, p);
      if o[0] != h {
        assert Without(o, h)[0] == o[0] && Without(o, h)[1..] == Without(o[1..], h);
      } else {
        assert Without(o, h) == Without(o[1..], h);
      }
    }
  }

  /** While hooks of one chain are dropped one by one, the verdict is that of the first or of
      the last of those states. */
  lemma {:induction false} DroppedVerdict(c: map<string, seq<FwRule>>, o: seq<Hook>, k: nat, h: Hook, i: string,
                                          p: Packet)
    requires k <= |o|
    ensures var mid := OutputVerdict(c, Without(o[..k], h) + o[k..], i, p);
            mid == OutputVerdict(c, o, i, p) || mid == OutputVerdict(c, Without(o, h), i, p)
  {
    if k == 0 {
      assert Without(o[..0], h) + o[0..] == o;
    } else {
      var rest := Without(o[1..][..k - 1], h) + o[1..][k - 1..];
      DroppedVerdict(c, o[1..], k - 1, h, i, p);
      WithoutVerdict(c, o[1..], h, i, p);
      assert o[..k][0] == o[0] && o[..k][1..] == o[1..][..k - 1] && o[k..] == o[1..][k - 1..];
      var mid := Without(o[..k], h) + o[k..];
      if o[0] == h {
        assert mid == rest && Without(o, h) == Without(o[1..], h);
      } else {
        assert mid[0] == o[0] && mid[1..] == rest;
        assert Without(o, h)[0] == o[0] && Without(o, h)[1..] == Without(o[1..], h);
      }
    }
  }

  lemma FillingIsOldOrNew(f0: Filter, f: Filter, iface: string, plan: seq<FwRule>)
    requires Filling(f0, f, iface, plan) && SwapSafe(f0, iface, plan)
    ensures OldOrNew(f0, f, iface, plan)
  {
    hide ChainName, LegacyGone;
    var t, e := Target(f0, iface), Emptied(f0, iface);
    if f.chains != f0.chains {
      forall p
        ensures || OutputVerdict(f.chains, f.output, iface, p) == OutputVerdict(f0.chains, f0.output, iface, p)
                || OutputVerdict(f.chains, f.output, iface, p) == ChainVerdict(plan, p)
      {
        PartialVerdict(e.chains, f.chains, f0.output, t, iface, plan, p);
        if !HasHook(f0, iface, t) { VerdictIgnores(f0.chains, e.chains, f0.output, t, iface, p); }
      }
    }
  }

  /** The four lists between which the unhooking moves give old or new verdicts. */
  lemma StagesAreOldOrNew(f0: Filter, o1: seq<Hook>, iface: string, plan: seq<FwRule>, p: Packet)
    requires SwapSafe(f0, iface, plan) && EndsInDrop(plan) && NoForeign(f0, iface) && HookedAs(f0, o1, iface)
    ensures var c := f0.chains[Target(f0, iface) := plan];
            var base, prev := Hook(iface, ChainBase(iface)), Hook(iface, Previous(f0, iface));
            var old_, new_ := OutputVerdict(f0.chains, f0.output, iface, p), ChainVerdict(plan, p);
            && OutputVerdict(c, o1, iface, p) in {old_, new_}
            && OutputVerdict(c, Without(o1, base), iface, p) in {old_, new_}
            && OutputVerdict(c, Without(Without(o1, base), prev), iface, p) == new_
  {
    OwnNamesDistinct(iface);
    hide ChainName;
    var t := Target(f0, iface);
    var c := f0.chains[t := plan];
    var base, prev := Hook(iface, ChainBase(iface)), Hook(iface, Previous(f0, iface));
    WithoutSpec(o1, base);
    WithoutSpec(Without(o1, base), prev);
    CompleteDecides(plan, p);
    OnlyHookDecides(c, Without(Without(o1, base), prev), iface, t, p);
    if o1 == f0.output {
      PartialVerdict(Emptied(f0, iface).chains, c, f0.output, t, iface, plan, p);
      assert LegacyGone(f0, iface, plan) == Filter(c, Without(o1, base));
    } else {
      assert o1[0] == Hook(iface, t) && Without(o1, base)[0] == Hook(iface, t);
    }
  }

  lemma SwappedIsOldOrNew(f0: Filter, f: Filter, iface: string, plan: seq<FwRule>)
    requires Swapped(f0, f, iface, plan) && SwapSafe(f0, iface, plan) && EndsInDrop(plan) && NoForeign(f0, iface)
    ensures OldOrNew(f0, f, iface, plan)
  {
    hide ChainName, Without, SwapSafe, HookedAs, OutputVerdict, ChainVerdict, NoForeign;
    var t := Target(f0, iface);
    FilledIs(f0, f, t, plan);
    var base, prev := Hook(iface, ChainBase(iface)), Hook(iface, Previous(f0, iface));
    var o1 :| HookedAs(f0, o1, iface) && Leaving(f0, o1, f.output, iface);
    forall p
      ensures || OutputVerdict(f.chains, f.output, iface, p) == OutputVerdict(f0.chains, f0.output, iface, p)
              || OutputVerdict(f.chains, f.output, iface, p) == ChainVerdict(plan, p)
    {
      StagesAreOldOrNew(f0, o1, iface, plan, p);
      if Dropped(o1, f.output, base) {
        var k :| 0 <= k <= |o1| && f.output == Without(o1[..k], base) + o1[k..];
        DroppedVerdict(f.chains, o1, k, base, iface, p);
      } else {
        var o2 := Without(o1, base);
        var k :| 0 <= k <= |o2| && f.output == Without(o2[..k], prev) + o2[k..];
        DroppedVerdict(f.chains, o2, k, prev, iface, p);
      }
    }
  }

  /** Exactness of the swap.  In every state of a successful run every packet gets the old or
      the new verdict if and only if the run was safe to start; and then this also holds in
      every state of a run that fails somewhere. */
  lemma SwapExactly(s0: Snapshot, steps: seq<Snapshot>, fam: Family, iface: string, plan: seq<FwRule>)
    requires EndsInDrop(plan) && NoForeign(s0.fw.Of(fam), iface)
    requires forall s <- steps :: FwStep(s0, s, fam, iface, plan)
    ensures SwapSafe(s0.fw.Of(fam), iface, plan) ==>
              forall s <- steps :: OldOrNew(s0.fw.Of(fam), s.fw.Of(fam), iface, plan)
    ensures Visits(s0, steps, fam, iface, plan) ==>
              ((forall s <- steps :: OldOrNew(s0.fw.Of(fam), s.fw.Of(fam), iface, plan))
               <==> SwapSafe(s0.fw.Of(fam), iface, plan))
  {
    hide OldOrNew, Emptied, Hooked, LegacyGone, Swapped, Filling;
    var f0 := s0.fw.Of(fam);
    if SwapSafe(f0, iface, plan) {
      forall s | s in steps ensures OldOrNew(f0, s.fw.Of(fam), iface, plan) {
        if Filling(f0, s.fw.Of(fam), iface, plan) {
          FillingIsOldOrNew(f0, s.fw.Of(fam), iface, plan);
        } else {
          SwappedIsOldOrNew(f0, s.fw.Of(fam), iface, plan);
        }
      }
    }
  }

  /** The first of the interface's own hooks. */
  function FirstOwn(output: seq<Hook>, iface: string): Option<string> {
    if output == [] then None
    else if OwnHook(iface, output[0]) then Some(output[0].chain)
    else FirstOwn(output[1..], iface)
  }

  lemma {:induction false} FirstOwnDecides(c: map<string, seq<FwRule>>, o: seq<Hook>, iface: string, p: Packet)
    requires forall h <- o :: h.iface == iface ==> OwnChain(iface, h.chain)
    requires FirstOwn(o, iface).Some? && FirstOwn(o, iface).value in c && EndsInDrop(c[FirstOwn(o, iface).value])
    ensures OutputVerdict(c, o, iface, p) == ChainVerdict(c[FirstOwn(o, iface).value], p)
  {
    hide ChainName;
    CompleteDecides(c[FirstOwn(o, iface).value], p);
    if !OwnHook(iface, o[0]) { FirstOwnDecides(c, o[1..], iface, p); }
  }

  /** With the target empty, the generation behind or before it decides. */
  lemma {:induction false} ExposedVerdict(c: map<string, seq<FwRule>>, o: seq<Hook>, iface: string, a: string,
                                          t: string, p: Packet)
    requires Hook(iface, a) in o && a in c && EndsInDrop(c[a]) && t in c && c[t] == []
    requires forall h <- o :: h.iface == iface ==> h.chain == a || h.chain == t
    ensures OutputVerdict(c, o, iface, p) == ChainVerdict(c[a], p)
  {
    CompleteDecides(c[a], p);
    if o[0] != Hook(iface, a) {
      assert o == [o[0]] + o[1..];
      ExposedVerdict(c, o[1..], iface, a, t, p);
    }
  }

  lemma {:induction false} FirstOwnIs(o: seq<Hook>, iface: string)
    ensures FirstOwn(o, iface).Some? ==>
              Hook(iface, FirstOwn(o, iface).value) in o && OwnChain(iface, FirstOwn(o, iface).value)
    ensures forall h <- o :: OwnHook(iface, h) ==> FirstOwn(o, iface).Some?
  {
    hide ChainName;
    if o != [] {
      FirstOwnIs(o[1..], iface);
      assert o == [o[0]] + o[1..];
    }
  }

  /** All packets leaving the interface get the verdicts of one chain. */
  ghost predicate Follows(f: Filter, iface: string, chain: seq<FwRule>) {
    forall p :: OutputVerdict(f.chains, f.output, iface, p) == ChainVerdict(chain, p)
  }

  /** The older generation never says anything that neither the present nor the new one says. */
  ghost predicate NoThird(f0: Filter, iface: string, older: seq<FwRule>, plan: seq<FwRule>) {
    forall p :: || ChainVerdict(older, p) == OutputVerdict(f0.chains, f0.output, iface, p)
                || ChainVerdict(older, p) == ChainVerdict(plan, p)
  }

  /** Safety in terms of the hooks: without a legacy chain, a run is safe if and only if the
      chain to be rebuilt is not hooked, or is not the one in front, or the older generation
      it exposes never gives a third verdict. */
  lemma SwapSafeExactly(f0: Filter, iface: string, plan: seq<FwRule>)
    requires Sound(f0, iface) && NoForeign(f0, iface) && !HasHook(f0, iface, ChainBase(iface)) && EndsInDrop(plan)
    ensures SwapSafe(f0, iface, plan)
            <==> || !HasHook(f0, iface, Target(f0, iface))
                 || FirstOwn(f0.output, iface) != Some(Target(f0, iface))
                 || NoThird(f0, iface, f0.chains[ChainA(iface)], plan)
  {
    OwnNamesDistinct(iface);
    hide ChainName, FirstOwn, OutputVerdict, ChainVerdict;
    var t, a, o := Target(f0, iface), ChainA(iface), f0.output;
    if HasHook(f0, iface, t) {
      WithoutSpec(o, Hook(iface, ChainBase(iface)));
      FirstOwnIs(o, iface);
      assert OwnHook(iface, Hook(iface, t));
      forall h | h in o && h.iface == iface ensures h.chain == a || h.chain == t {
        assert HasHook(f0, iface, h.chain);
      }
      assert Emptied(f0, iface) == Filter(f0.chains[t := []], o);
      assert LegacyGone(f0, iface, plan) == Filter(f0.chains[t := plan], o);
      TwoGenerations(f0, iface, a, t, plan);
      ExposedAgrees(f0, iface, plan, f0.chains[a]);
    }
  }

  lemma TwoGenerations(f: Filter, iface: string, a: string, t: string, plan: seq<FwRule>)
    requires a != t && a in f.chains && EndsInDrop(f.chains[a]) && EndsInDrop(plan) && Hook(iface, a) in f.output
    requires OwnChain(iface, a) && OwnChain(iface, t)
    requires FirstOwn(f.output, iface).Some? && Hook(iface, FirstOwn(f.output, iface).value) in f.output
    requires forall h <- f.output :: h.iface == iface ==> h.chain == a || h.chain == t
    ensures var front := FirstOwn(f.output, iface) == Some(t);
            && Follows(Filter(f.chains[t := []], f.output), iface, f.chains[a])
            && Follows(Filter(f.chains[t := plan], f.output), iface, if front then plan else f.chains[a])
            && (!front ==> Follows(f, iface, f.chains[a]))
  {
    hide ChainName, FirstOwn, OutputVerdict, ChainVerdict;
    var c, o := f.chains, f.output;
    var winner := if FirstOwn(o, iface) == Some(t) then plan else c[a];
    forall p
      ensures OutputVerdict(c[t := []], o, iface, p) == ChainVerdict(c[a], p)
      ensures OutputVerdict(c[t := plan], o, iface, p) == ChainVerdict(winner, p)
      ensures FirstOwn(o, iface) != Some(t) ==> OutputVerdict(c, o, iface, p) == ChainVerdict(c[a], p)
    {
      ExposedVerdict(c[t := []], o, iface, a, t, p);
      FirstOwnDecides(c[t := plan], o, iface, p);
      if FirstOwn(o, iface) != Some(t) { FirstOwnDecides(c, o, iface, p); }
    }
    assert Follows(Filter(c[t := plan], o), iface, winner);
  }

  lemma ExposedAgrees(f0: Filter, iface: string, plan: seq<FwRule>, older: seq<FwRule>)
    requires HasHook(f0, iface, Target(f0, iface))
    requires var front := FirstOwn(f0.output, iface) == Some(Target(f0, iface));
             && Follows(Emptied(f0, iface), iface, older)
             && Follows(LegacyGone(f0, iface, plan), iface, if front then plan else older)
             && (!front ==> Follows(f0, iface, older))
    ensures SwapSafe(f0, iface, plan)
            <==> FirstOwn(f0.output, iface) != Some(Target(f0, iface)) || NoThird(f0, iface, older, plan)
  {
    hide ChainName, OutputVerdict, ChainVerdict, Emptied, LegacyGone, FirstOwn, Target;
    var e := Emptied(f0, iface);
    if OldOrNew(f0, e, iface, plan) {
      forall p ensures || ChainVerdict(older, p) == OutputVerdict(f0.chains, f0.output, iface, p)
                       || ChainVerdict(older, p) == ChainVerdict(plan, p) {
        assert OutputVerdict(e.chains, e.output, iface, p) == ChainVerdict(older, p);
      }
    }
  }

  // ---------------------------------------------------------------- precedence of the new generation

  /** The new generation has first-match precedence once it is hooked if and only if it was not
      hooked at the start or already in front: it waits exactly when both generations are
      hooked at the start and _B is not the first. */
  lemma PrecedenceExactly(f0: Filter, iface: string, plan: seq<FwRule>)
    ensures FirstOwn(Hooked(f0, iface, plan).output, iface) == Some(Target(f0, iface))
            <==> !HasHook(f0, iface, Target(f0, iface)) || FirstOwn(f0.output, iface) == Some(Target(f0, iface))
    ensures FirstOwn(Hooked(f0, iface, plan).output, iface) != Some(Target(f0, iface))
            <==> && HasHook(f0, iface, ChainA(iface)) && HasHook(f0, iface, ChainB(iface))
                 && FirstOwn(f0.output, iface) != Some(ChainB(iface))
  {
    OwnNamesDistinct(iface);
    hide ChainName;
    var h := Hook(iface, Target(f0, iface));
    if h !in f0.output { assert Hooked(f0, iface, plan).output[0] == h && OwnHook(iface, h); }
  }

  /** A successful run passes through a state with both generations hooked, the new one in
      front; a run that stops there leaves it behind. */
  lemma InterruptedLeavesBoth(s0: Snapshot, steps: seq<Snapshot>, fam: Family, iface: string, plan: seq<FwRule>)
    requires Visits(s0, steps, fam, iface, plan)
    ensures s0.fw.Of(fam).output == [Hook(iface, ChainB(iface))] ==>
              exists s <- steps :: s.fw.Of(fam) == Filter(s0.fw.Of(fam).chains[ChainA(iface) := plan],
                                                          [Hook(iface, ChainA(iface)), Hook(iface, ChainB(iface))])
    ensures s0.fw.Of(fam).output == [Hook(iface, ChainA(iface))] ==>
              exists s <- steps :: s.fw.Of(fam) == Filter(s0.fw.Of(fam).chains[ChainB(iface) := plan],
                                                          [Hook(iface, ChainB(iface)), Hook(iface, ChainA(iface))])
  {
    OwnNamesDistinct(iface);
    hide ChainName;
    var f0 := s0.fw.Of(fam);
    var s :| s in steps && s.fw.Of(fam) == Hooked(f0, iface, plan);
    if f0.output == [Hook(iface, ChainB(iface))] {
      assert Target(f0, iface) == ChainA(iface);
      assert s.fw.Of(fam).output == [Hook(iface, ChainA(iface)), Hook(iface, ChainB(iface))];
    }
    if f0.output == [Hook(iface, ChainA(iface))] {
      assert Hook(iface, ChainA(iface)) in f0.output && Target(f0, iface) == ChainB(iface);
      assert s.fw.Of(fam).output == [Hook(iface, ChainB(iface)), Hook(iface, ChainA(iface))];
    }
  }

  /** A packet to the network itself that only an allow entry can let pass. */
  function PlainPacket(net: Cidr): Packet {
    Packet(net.addr, OtherProto, 0, 0, false)
  }

  lemma AllowedThenRevoked(net: Cidr)
    ensures var v6 := net.addr.fam == V6;
            && ChainVerdict(Plan([(Some(net), None)], [], v6), PlainPacket(net)) == Some(Accept)
            && ChainVerdict(Plan([], [], v6), PlainPacket(net)) == Some(Drop)
  {
    hide Plan;
    var v6, p := net.addr.fam == V6, PlainPacket(net);
    var allow: AllowList := [(Some(net), None)];
    PlanVerdict(allow, [], v6, p);
    PlanVerdict([], [], v6, p);
    ContainsOwnAddress(net);
    assert Admits(allow[0], p);
  }

  /** The input at [_A, _B]: the front generation allows a network that the new policy revokes.
      The new chain is complete and hooked, and packets to the network still pass. */
  lemma WaitsBehindOlder(f0: Filter, iface: string, net: Cidr)
    requires f0.output == [Hook(iface, ChainA(iface)), Hook(iface, ChainB(iface))]
    requires ChainA(iface) in f0.chains && f0.chains[ChainA(iface)] == Plan([(Some(net), None)], [], net.addr.fam == V6)
    ensures var plan := Plan([], [], net.addr.fam == V6);
            var f := Hooked(f0, iface, plan);
            && Complete(f, Target(f0, iface)) && HasHook(f, iface, Target(f0, iface))
            && ChainVerdict(plan, PlainPacket(net)) == Some(Drop)
            && OutputVerdict(f.chains, f.output, iface, PlainPacket(net)) == Some(Accept)
  {
    OwnNamesDistinct(iface);
    AllowedThenRevoked(net);
    hide ChainName;
    var plan := Plan([], [], net.addr.fam == V6);
    var f := Hooked(f0, iface, plan);
    assert f0.output[0] == Hook(iface, ChainA(iface)) && f0.output[1] == Hook(iface, ChainB(iface));
    assert Target(f0, iface) == ChainB(iface) && f.output == f0.output;
    assert f.chains[ChainA(iface)] == f0.chains[ChainA(iface)];
  }

  /** The input at [_B, _A]: the older _A allows a network that neither the policy in force nor
      the new one admits.  Flushing _B lets packets to it pass. */
  lemma FlushExposesOlderGeneration(f0: Filter, iface: string, net: Cidr)
    requires f0.output == [Hook(iface, ChainB(iface)), Hook(iface, ChainA(iface))]
    requires ChainA(iface) in f0.chains && f0.chains[ChainA(iface)] == Plan([(Some(net), None)], [], net.addr.fam == V6)
    requires ChainB(iface) in f0.chains && f0.chains[ChainB(iface)] == Plan([], [], net.addr.fam == V6)
    ensures var f := Emptied(f0, iface);
            && OutputVerdict(f0.chains, f0.output, iface, PlainPacket(net)) == Some(Drop)
            && OutputVerdict(f.chains, f.output, iface, PlainPacket(net)) == Some(Accept)
    ensures !SwapSafe(f0, iface, Plan([], [], net.addr.fam == V6))
  {
    OwnNamesDistinct(iface);
    AllowedThenRevoked(net);
    hide ChainName;
    var f := Emptied(f0, iface);
    assert f0.output[0] == Hook(iface, ChainB(iface)) && f0.output[1] == Hook(iface, ChainA(iface));
    assert Target(f0, iface) == ChainB(iface);
    assert f0.output[1..] == [Hook(iface, ChainA(iface))];
    assert f.output[1..][0] == Hook(iface, ChainA(iface));
  }

  /** After a successful run, with no foreign hook on the interface, each packet of the family
      leaving it gets exactly the policy's verdict. */
  lemma SettledVerdict(f: Filter, iface: string, allowed: AllowList, blocked: seq<Cidr>, v6: bool, p: Packet)
    requires Settled(f, iface, Plan(allowed, blocked, v6))
    requires forall h <- f.output :: h.iface == iface ==> OwnChain(iface, h.chain)
    requires v6 <==> p.dst.fam == V6
    ensures OutputVerdict(f.chains, f.output, iface, p)
            == if exists n <- blocked :: Contains(n, p.dst) then Some(Drop)
               else if p.established || IsDhcp(p) || p.proto == (if v6 then IcmpV6 else Icmp) || Allowed(allowed, p)
               then Some(Accept)
               else Some(Drop)
  {
    hide ChainName, Plan, IsDhcp, Allowed;
    var plan := Plan(allowed, blocked, v6);
    PlanEndsInDrop(allowed, blocked, v6);
    PlanVerdict(allowed, blocked, v6, p);
    var t :| t in [ChainA(iface), ChainB(iface)] && t in f.chains && f.chains[t] == plan && HasHook(f, iface, t)
             && forall c :: HasHook(f, iface, c) && OwnChain(iface, c) ==> c == t;
    forall h | h in f.output && h.iface == iface ensures h.chain == t {
      assert HasHook(f, iface, h.chain);
    }
    OnlyHookDecides(f.chains, f.output, iface, t, p);
  }

  // ---------------------------------------------------------------- names

  lemma SuffixCancels(a: string, b: string, s: string)
    ensures a + s == b + s <==> a == b
  {
    if a + s == b + s {
      assert |a| == |b|;
      assert a == (a + s)[..|a|] && b == (b + s)[..|b|];
    }
  }

  lemma ChainNameCancels(i: string, j: string, s: string, u: string)
    ensures ChainName(i, s) == ChainName(j, u) <==> Sanitize(i) + s == Sanitize(j) + u
  {
    var stem := "RT_EGRESS_";
    var x, y := Sanitize(i) + s, Sanitize(j) + u;
    assert ChainName(i, s) == stem + x && ChainName(j, u) == stem + y;
    assert (stem + x)[|stem|..] == x && (stem + y)[|stem|..] == y;
  }

  lemma DifferentEnds(a: string, b: string)
    ensures a + "_A" != b + "_B"
  {
    var x, y := a + "_A", b + "_B";
    assert x[|x| - 1] == 'A' && y[|y| - 1] == 'B';
  }

  /** Exactly when two interfaces are kept apart: their names differ after `.` and `-` became
      `_`, and neither is the other with a generation suffix. */
  lemma NamesApartExactly(i: string, j: string)
    ensures NamesApart(i, j)
            <==> && Sanitize(i) != Sanitize(j)
                 && Sanitize(j) != Sanitize(i) + "_A" && Sanitize(j) != Sanitize(i) + "_B"
                 && Sanitize(i) != Sanitize(j) + "_A" && Sanitize(i) != Sanitize(j) + "_B"
  {
    var a, b := Sanitize(i), Sanitize(j);
    hide Sanitize, ChainName;
    forall s, u | s in ["", "_A", "_B"] && u in ["", "_A", "_B"]
      ensures ChainName(i, s) == ChainName(j, u) <==> a + s == b + u
    {
      ChainNameCancels(i, j, s, u);
    }
    var suffixes := ["", "_A", "_B"];
    assert suffixes[0] == "" && suffixes[1] == "_A" && suffixes[2] == "_B";
    assert a + "" == a && b + "" == b;
    SuffixCancels(a, b, "_A");
    SuffixCancels(a, b, "_B");
    DifferentEnds(a, b);
    DifferentEnds(b, a);
  }

  /** Two interfaces that differ only in `.` and `-` share chains: rebuilding one flushes the
      hooked chain of the other, and every packet of the other passes unfiltered. */
  lemma CollisionOpensOther(i: string, j: string, f0: Filter, f: Filter, plan: seq<FwRule>, p: Packet)
    requires i != j && Sanitize(i) == Sanitize(j)
    requires f0.output == [Hook(i, ChainA(i))] && Complete(f0, ChainA(i))
    requires f == f0.(chains := f0.chains[ChainA(j) := []])
    ensures Filling(f0, f, j, plan)
    ensures OutputVerdict(f0.chains, f0.output, i, p).Some?
    ensures OutputVerdict(f.chains, f.output, i, p).None?
  {
    ChainNameCancels(i, j, "_A", "_A");
    CompleteDecides(f0.chains[ChainA(i)], p);
    assert f0.output[1..] == [] && f.output[1..] == [];
  }
}
