/** Repeating a cluster reconcile with the same answers: when exactly the fan-out is quiet. */
module ClusterRepeats {
  import opened Strings
  import opened Addresses
  import opened IPFilter
  import opened Policies
  import opened NetPol
  import opened ResolutionPass
  import opened ClusterReconciler
  import opened ClusterRuns
  import Profiler
  import ReconcilerRuns
  import Webhook

  /** Both fail, or both answer with the same addresses overall and per resolver, in any order. */
  ghost predicate SameAnswer(a: Outcome, b: Outcome) {
    (a.Failed? && b.Failed?) || (a.Answered? && b.Answered?
      && multiset(a.res.ips) == multiset(b.res.ips)
      && a.res.resolverResults.Keys == b.res.resolverResults.Keys
      && forall u | u in a.res.resolverResults ::
           multiset(a.res.resolverResults[u]) == multiset(b.res.resolverResults[u]))
  }

  lemma {:induction false} AgreementPermuted(r: map<string, seq<string>>, s: map<string, seq<string>>, ip: string)
    requires r.Keys == s.Keys && forall u | u in r :: multiset(r[u]) == multiset(s[u])
    ensures Agreement(r, ip) == Agreement(s, ip)
    decreases |r|
  {
    if r == map[] {
      assert s == map[];
    } else {
      var u :| u in r;
      AgreementSplit(r, u, ip);
      AgreementSplit(s, u, ip);
      AgreementPermuted(r - {u}, s - {u}, ip);
    }
  }

  lemma AdmittedPermuted(parse: Parser, sec: Option<SecuritySpec>, a: Outcome, b: Outcome)
    requires a.Answered? && b.Answered? && SameAnswer(a, b)
    ensures multiset(Admitted(parse, sec, a.res)) == multiset(Admitted(parse, sec, b.res))
    ensures multiset(Blocked(parse, sec, a.res)) == multiset(Blocked(parse, sec, b.res))
  {
    KeptPermuted(sec, a, b);
    FilterPermutation(Kept(sec, a.res), Kept(sec, b.res), ip => Passes(parse, sec, ip));
    FilterPermutation(Kept(sec, a.res), Kept(sec, b.res), ip => !Passes(parse, sec, ip));
  }

  lemma KeptPermuted(sec: Option<SecuritySpec>, a: Outcome, b: Outcome)
    requires a.Answered? && b.Answered? && SameAnswer(a, b)
    ensures multiset(Kept(sec, a.res)) == multiset(Kept(sec, b.res))
  {
    var r, s := a.res.resolverResults, b.res.resolverResults;
    assert r == map[] <==> s == map[] by { assert r == map[] <==> r.Keys == {}; assert s == map[] <==> s.Keys == {}; }
    if sec.Some? && sec.value.minResolverAgreement.Some? {
      var min := sec.value.minResolverAgreement.value;
      forall ip ensures Agreed(r, min, ip) == Agreed(s, min, ip) {
        AgreementPermuted(r, s, ip);
      }
      FilterCongruent(a.res.ips, ip => Agreed(r, min, ip), ip => Agreed(s, min, ip));
      FilterPermutation(a.res.ips, b.res.ips, ip => Agreed(s, min, ip));
    }
  }

  /** Both absent, or both present with the same addresses. */
  ghost predicate SameHost(a: Option<ResolvedHost>, b: Option<ResolvedHost>) {
    a.Some? == b.Some? && (a.Some? ==> multiset(a.value.ips) == multiset(b.value.ips))
  }

  lemma AnsweredPermuted(parse: Parser, p: Pass, q: Pass, i: nat)
    requires SamePasses(p, q) && i < |p.egress| && p.lookups[i].outcome.Answered?
    ensures SameHost(p.At(parse, i).host, q.At(parse, i).host)
  {
    var a, b := p.lookups[i].outcome, q.lookups[i].outcome;
    assert SameAnswer(a, b);
    AdmittedPermuted(parse, p.sec, a, b);
    EmptyTogether(Admitted(parse, p.sec, a.res), Admitted(parse, p.sec, b.res));
    EmptyTogether(Blocked(parse, p.sec, a.res), Blocked(parse, p.sec, b.res));
  }

  /** Two cluster passes over the same rules whose lookups give the same answers, in any order. */
  ghost predicate SamePasses(p: Pass, q: Pass) {
    && p.Complete() && q.Complete() && p.egress == q.egress && p.sec == q.sec && p.scope == q.scope == ClusterWide
    && forall i | 0 <= i < |p.egress| :: SameAnswer(p.lookups[i].outcome, q.lookups[i].outcome)
  }

  lemma EmptyTogether(s: seq<string>, t: seq<string>)
    requires multiset(s) == multiset(t)
    ensures s == [] <==> t == []
  {
    assert |s| == |multiset(s)| && |t| == |multiset(t)|;
  }

  lemma HostCIDRInjective(parse: Parser, a: string, b: string)
    requires HostCIDR(parse, a) == HostCIDR(parse, b)
    ensures a == b
  {
    var c := HostCIDR(parse, a);
    if c[|c| - 1] == '8' {
      assert c[..|c| - 4] == a && c[..|c| - 4] == b;
    } else {
      assert c[..|c| - 3] == a && c[..|c| - 3] == b;
    }
  }

  /** A host route occurs among the peers as often as its text among the addresses. */
  lemma {:induction false} HostPeersOccurrences(parse: Parser, s: seq<string>, ip: string)
    ensures multiset(HostPeers(parse, s))[HostCIDR(parse, ip)] == multiset(s)[ip]
  {
    if s != [] {
      var n := |s| - 1;
      HostPeersOccurrences(parse, s[..n], ip);
      assert s == s[..n] + [s[n]];
      assert HostPeers(parse, s) == HostPeers(parse, s[..n]) + [HostCIDR(parse, s[n])];
      if s[n] != ip && HostCIDR(parse, s[n]) == HostCIDR(parse, ip) {
        HostCIDRInjective(parse, s[n], ip);
      }
    }
  }

  lemma HostPeersPermuted(parse: Parser, s: seq<string>, t: seq<string>)
    requires multiset(s) == multiset(t)
    ensures multiset(HostPeers(parse, s)) == multiset(HostPeers(parse, t))
  {
    var a, b := HostPeers(parse, s), HostPeers(parse, t);
    forall c ensures multiset(a)[c] == multiset(b)[c] {
      if ip :| ip in s + t && c == HostCIDR(parse, ip) {
        HostPeersOccurrences(parse, s, ip);
        HostPeersOccurrences(parse, t, ip);
      } else {
        NotAPeer(parse, s, c);
        NotAPeer(parse, t, c);
      }
    }
  }

  lemma NotAPeer(parse: Parser, s: seq<string>, c: string)
    requires forall ip | ip in s :: c != HostCIDR(parse, ip)
    ensures multiset(HostPeers(parse, s))[c] == 0
  {
    assert c !in HostPeers(parse, s);
  }

  // ---- what failing lookups fall back on ----

  ghost function Bag(parse: Parser, hosts: seq<ResolvedHost>): multiset<string> {
    multiset(Peers(parse, hosts))
  }

  function Listed(h: Option<ResolvedHost>): seq<ResolvedHost> {
    if h.Some? then [h.value] else []
  }

  /** The entries of `hosts` that the first `n` rules record again because their lookups fail. */
  function Fallback(p: Pass, hosts: seq<ResolvedHost>, n: nat): seq<ResolvedHost>
    requires p.Complete() && n <= |p.egress|
  {
    if n == 0 then []
    else Fallback(p, hosts, n - 1) + if p.lookups[n - 1].outcome.Failed?
        then Listed(Previous(hosts, p.egress[n - 1].pattern)) else []
  }

  lemma PeersAppend(parse: Parser, hosts: seq<ResolvedHost>, h: ResolvedHost)
    ensures Peers(parse, hosts + [h]) == Peers(parse, hosts) + HostPeers(parse, h.ips)
  {
    assert (hosts + [h])[..|hosts|] == hosts;
  }

  lemma BagAppend(parse: Parser, hosts: seq<ResolvedHost>, h: Option<ResolvedHost>)
    ensures Bag(parse, hosts + Listed(h)) == Bag(parse, hosts) + Bag(parse, Listed(h))
  {
    if h.Some? {
      PeersAppend(parse, hosts, h.value);
      PeersAppend(parse, [], h.value);
      NoPeers(parse);
      assert [] + [h.value] == Listed(h) && [] + HostPeers(parse, h.value.ips) == HostPeers(parse, h.value.ips);
    } else {
      NoPeers(parse);
      assert hosts + Listed(h) == hosts;
    }
  }

  lemma SameHostSameBag(parse: Parser, a: Option<ResolvedHost>, b: Option<ResolvedHost>)
    requires SameHost(a, b)
    ensures Bag(parse, Listed(a)) == Bag(parse, Listed(b))
  {
    if a.Some? {
      HostPeersPermuted(parse, a.value.ips, b.value.ips);
      PeersAppend(parse, [], a.value);
      PeersAppend(parse, [], b.value);
      NoPeers(parse);
      assert [] + [a.value] == Listed(a) && [] + [b.value] == Listed(b);
    }
  }

  /** One more rule adds its host to the pass, and to the fallback if its lookup fails. */
  lemma BagStep(parse: Parser, p: Pass, hosts: seq<ResolvedHost>, n: nat)
    requires p.Complete() && n < |p.egress|
    ensures Bag(parse, p.Hosts(parse, n + 1)) == Bag(parse, p.Hosts(parse, n)) + Bag(parse, Listed(p.At(parse, n).host))
    ensures Bag(parse, Fallback(p, hosts, n + 1)) == Bag(parse, Fallback(p, hosts, n))
              + if p.lookups[n].outcome.Failed? then Bag(parse, Listed(Previous(hosts, p.egress[n].pattern)))
                  else multiset{}
  {
    hide Bag, Previous, RuleEffect;
    HostsStep(parse, p, n);
    BagAppend(parse, p.Hosts(parse, n), p.At(parse, n).host);
    assert p.Hosts(parse, n) + [] == p.Hosts(parse, n);
    BagAppend(parse, Fallback(p, hosts, n), Previous(hosts, p.egress[n].pattern));
    assert Fallback(p, hosts, n) + [] == Fallback(p, hosts, n);
  }

  lemma FailedEffect(parse: Parser, p: Pass, i: nat)
    requires p.Complete() && p.scope.ClusterWide? && i < |p.egress| && p.lookups[i].outcome.Failed?
    ensures p.At(parse, i).host == Previous(p.prev, p.egress[i].pattern)
  {
  }

  lemma AddBoth(
    a: multiset<string>, b: multiset<string>, c: multiset<string>, d: multiset<string>, x: multiset<string>,
    y: multiset<string>)
    requires a + b == c + d
    ensures (a + x) + (b + y) == (c + y) + (d + x)
  {
    assert (a + x) + (b + y) == (a + b) + x + y;
    assert (c + y) + (d + x) == (c + d) + x + y;
  }

  /** Two passes with the same answers differ exactly in what their failing lookups fall back on. */
  lemma {:induction false} Balance(parse: Parser, p: Pass, q: Pass, n: nat)
    requires p.Complete() && q.Complete() && n <= |p.egress| == |q.egress| && SamePasses(p, q)
    ensures Bag(parse, p.Hosts(parse, n)) + Bag(parse, Fallback(p, q.prev, n))
            == Bag(parse, q.Hosts(parse, n)) + Bag(parse, Fallback(p, p.prev, n))
  {
    hide SamePasses, Bag;
    if n > 0 {
      hide Fallback, Pass.Hosts;
      var m := n - 1;
      Balance(parse, p, q, m);
      BalanceStep(parse, p, q, m);
      assert m + 1 == n;
    } else {
      assert p.Hosts(parse, 0) == q.Hosts(parse, 0) && Fallback(p, q.prev, 0) == Fallback(p, p.prev, 0);
    }
  }

  lemma BalanceStep(parse: Parser, p: Pass, q: Pass, n: nat)
    requires SamePasses(p, q) && n < |p.egress|
    requires Bag(parse, p.Hosts(parse, n)) + Bag(parse, Fallback(p, q.prev, n))
             == Bag(parse, q.Hosts(parse, n)) + Bag(parse, Fallback(p, p.prev, n))
    ensures Bag(parse, p.Hosts(parse, n + 1)) + Bag(parse, Fallback(p, q.prev, n + 1))
            == Bag(parse, q.Hosts(parse, n + 1)) + Bag(parse, Fallback(p, p.prev, n + 1))
  {
    hide Bag, Fallback, Previous, RuleEffect, Pass.Hosts, Pass.At, SameHost;
    var a, b := p.At(parse, n).host, q.At(parse, n).host;
    BagStep(parse, p, p.prev, n);
    BagStep(parse, p, q.prev, n);
    BagStep(parse, q, q.prev, n);
    assert SameAnswer(p.lookups[n].outcome, q.lookups[n].outcome);
    if p.lookups[n].outcome.Failed? {
      FailedEffect(parse, p, n);
      FailedEffect(parse, q, n);
      AddBoth(Bag(parse, p.Hosts(parse, n)), Bag(parse, Fallback(p, q.prev, n)),
              Bag(parse, q.Hosts(parse, n)), Bag(parse, Fallback(p, p.prev, n)), Bag(parse, Listed(a)),
                  Bag(parse, Listed(b)));
    } else {
      AnsweredPermuted(parse, p, q, n);
      SameHostSameBag(parse, a, b);
      AddBoth(Bag(parse, p.Hosts(parse, n)), Bag(parse, Fallback(p, q.prev, n)),
              Bag(parse, q.Hosts(parse, n)), Bag(parse, Fallback(p, p.prev, n)), Bag(parse, Listed(a)), multiset{});
    }
  }

  lemma Cancel(a: multiset<string>, b: multiset<string>, c: multiset<string>, d: multiset<string>)
    requires a + b == c + d
    ensures a == c <==> d == b
  {
    forall x ensures a[x] + b[x] == c[x] + d[x] {
      assert (a + b)[x] == (c + d)[x];
    }
    if a == c {
      assert forall x :: b[x] == d[x];
    }
    if b == d {
      assert forall x :: a[x] == c[x];
    }
  }

  /** Falling back on the hosts just recorded gives the same CIDRs as falling back on those before. */
  ghost predicate FallbackSettled(parse: Parser, p: Pass)
    requires p.Complete()
  {
    Bag(parse, Fallback(p, p.prev, |p.egress|)) == Bag(parse, Fallback(p, p.Resolved(parse), |p.egress|))
  }

  /**
   * A second pass over the same rules, starting from the first pass's hosts and given the same answers
   * in any order, yields the same CIDRs exactly when the fallback of the failing lookups is settled.
   */
  lemma SameAnswersSameCIDRsIff(parse: Parser, p: Pass, q: Pass)
    requires SamePasses(p, q) && q.prev == p.Resolved(parse)
    ensures multiset(Peers(parse, p.Resolved(parse))) == multiset(Peers(parse, q.Resolved(parse)))
            <==> FallbackSettled(parse, p)
  {
    var n := |p.egress|;
    Balance(parse, p, q, n);
    Cancel(Bag(parse, p.Hosts(parse, n)), Bag(parse, Fallback(p, q.prev, n)),
           Bag(parse, q.Hosts(parse, n)), Bag(parse, Fallback(p, p.prev, n)));
    hide Fallback, Pass.Hosts, Peers;
  }

  // ---- when the fallback is settled ----

  /** Of rules that share a pattern, all lookups fail or all are answered. */
  predicate FailuresUnambiguous(p: Pass)
    requires p.Complete()
  {
    forall i, j | 0 <= i < |p.egress| && 0 <= j < |p.egress| && p.egress[i].pattern == p.egress[j].pattern ::
      p.lookups[i].outcome.Failed? <==> p.lookups[j].outcome.Failed?
  }

  /** When all lookups of a pattern fail, the pass records under it what was recorded before. */
  lemma RecordedUnder(parse: Parser, p: Pass, i: nat)
    requires p.Complete() && p.scope.ClusterWide? && i < |p.egress| && FailuresUnambiguous(p)
             && p.lookups[i].outcome.Failed?
    ensures Previous(p.Resolved(parse), p.egress[i].pattern) == Previous(p.prev, p.egress[i].pattern)
  {
    ReconcilerRuns.Controller(parse, "", "").PassRetains(p, |p.egress|, p.egress[i].pattern);
  }

  lemma {:induction false} UnambiguousFallback(parse: Parser, p: Pass, n: nat)
    requires p.Complete() && p.scope.ClusterWide? && FailuresUnambiguous(p) && n <= |p.egress|
    ensures Fallback(p, p.Resolved(parse), n) == Fallback(p, p.prev, n)
  {
    hide FailuresUnambiguous, Pass.Resolved, Previous;
    if n > 0 {
      UnambiguousFallback(parse, p, n - 1);
      if p.lookups[n - 1].outcome.Failed? {
        RecordedUnder(parse, p, n - 1);
      }
    }
  }

  /** In particular it is settled when rules that share a pattern fail or are answered together. */
  lemma SameAnswersSameCIDRs(parse: Parser, p: Pass, q: Pass)
    requires SamePasses(p, q) && q.prev == p.Resolved(parse) && FailuresUnambiguous(p)
    ensures multiset(Peers(parse, p.Resolved(parse))) == multiset(Peers(parse, q.Resolved(parse)))
  {
    UnambiguousFallback(parse, p, |p.egress|);
    SameAnswersSameCIDRsIff(parse, p, q);
    hide Peers, Fallback, Pass.Resolved, FailuresUnambiguous, SamePasses;
  }

  /**
   * Why failures must be unambiguous: two rules share a pattern, the first lookup fails and the
   * second answers; repeating exactly that doubles the host's CIDR.
   */
  lemma DuplicatePatternsDrift(parse: Parser, ip: string)
    requires Passes(parse, None, ip)
    ensures var rule := FQDNRule("a.example", []);
            var looks := [Lookup(Failed("timeout"), 0, 0),
                Lookup(Answered(Resolution([ip], [], 0, false, 0, map[])), 0, 0)];
            var p := Pass(ClusterWide, None, [], [rule, rule], looks);
            var q := p.(prev := p.Resolved(parse));
            |Peers(parse, p.Resolved(parse))| == 1 && |Peers(parse, q.Resolved(parse))| == 2
  {
    var rule := FQDNRule("a.example", []);
    var res := Resolution([ip], [], 0, false, 0, map[]);
    var looks := [Lookup(Failed("timeout"), 0, 0), Lookup(Answered(res), 0, 0)];
    var p := Pass(ClusterWide, None, [], [rule, rule], looks);
    var host := RecordedHost("a.example", looks[1], [ip]);
    FilterOne(ip, x => Passes(parse, None, x));
    assert p.At(parse, 0).host == None && p.At(parse, 1).host == Some(host);
    var q := p.(prev := [host]);
    assert q.At(parse, 0).host == Some(host) && q.At(parse, 1).host == Some(host);
    hide RuleEffect, Peers;
    HostsStep(parse, p, 0);
    HostsStep(parse, p, 1);
    HostsStep(parse, q, 0);
    HostsStep(parse, q, 1);
    PeersAppend(parse, [], host);
    PeersAppend(parse, [host], host);
    assert p.Hosts(parse, 2) == [host] && q.Hosts(parse, 2) == [host] + [host] && [] + [host] == [host];
    NoPeers(parse);
  }

  lemma NoPeers(parse: Parser)
    ensures Peers(parse, []) == []
  {
  }

  // ---- two reconciles in a row ----

  /**
   * A reconcile without faults, then another with the same answers in any order: the second leaves the
   * whole store as it is, with any faults, if the fallback is settled; and only if it is, when the
   * second also fans out without faults to some namespace.
   */
  lemma RepeatedReconcileIsQuietIff(
    parse: Parser, before: Store, between: Store, after: Store, status: ClusterStatus, c: ClusterCycle, d: ClusterCycle)
    requires Owned(before) && c.Complete() && d.Complete() && d.cp == c.cp && d.matched == c.matched
    requires c.faults == NO_FAULTS && !c.statusFails && c.FansOut(c.PassFrom(status).Resolved(parse))
    requires forall i | 0 <= i < |c.lookups| :: SameAnswer(c.lookups[i].outcome, d.lookups[i].outcome)
    requires StoreAfter(parse, before, status, c, between)
    requires StoreAfter(parse, between, StatusAfter(parse, status, c), d, after)
    ensures FallbackSettled(parse, c.PassFrom(status)) ==> after == between
    ensures d.faults == NO_FAULTS && d.FansOut(d.PassFrom(StatusAfter(parse, status, c)).Resolved(parse))
            && d.matched.value != [] ==>
              (after == between <==> FallbackSettled(parse, c.PassFrom(status)))
  {
    var p, q := c.PassFrom(status), d.PassFrom(StatusAfter(parse, status, c));
    var hosts, again := p.Resolved(parse), q.Resolved(parse);
    assert q.prev == hosts;
    SameAnswersSameCIDRsIff(parse, p, q);
    hide StoreStep, Converged, Owned, FallbackSettled, Peers, SameAnswer, Pass.Resolved;
    OneReconcileConverges(parse, before, between, c.cp, c.matched.value, hosts);
    if d.FansOut(again) {
      if FallbackSettled(parse, p) {
        SecondReconcileChangesNothing(parse, between, after, c.cp, c.matched.value, hosts, again, d.faults);
      } else if d.faults == NO_FAULTS && d.matched.value != [] {
        StepKeepsOwned(parse, before, FanOutEvent(c.cp, c.matched.value, hosts, NO_FAULTS), between);
        OneReconcileConverges(parse, between, after, c.cp, c.matched.value, again);
        if after == between {
          ConvergedBags(parse, after, c.cp, c.matched.value, hosts, again);
        }
      }
    }
  }

  /** One store cannot be converged on hosts with different CIDRs. */
  lemma ConvergedBags(
    parse: Parser, store: Store, cp: ClusterPolicy, matched: seq<string>, hosts: seq<ResolvedHost>,
    again: seq<ResolvedHost>)
    requires Converged(parse, store, cp, matched, hosts) && Converged(parse, store, cp, matched, again) && matched != []
    ensures multiset(Peers(parse, hosts)) == multiset(Peers(parse, again))
  {
    var ns := matched[0];
    assert ns in matched;
    hide Built, Peers, LabelledBy;
    BuiltPeers(parse, SyntheticPolicy(cp, ns, hosts));
    BuiltPeers(parse, SyntheticPolicy(cp, ns, again));
  }

  /** So a reconcile repeated after an unambiguous one never touches the store. */
  lemma RepeatedReconcileIsQuiet(
    parse: Parser, before: Store, between: Store, after: Store, status: ClusterStatus, c: ClusterCycle, d: ClusterCycle)
    requires Owned(before) && c.Complete() && d.Complete() && d.cp == c.cp && d.matched == c.matched
    requires c.faults == NO_FAULTS && !c.statusFails && c.FansOut(c.PassFrom(status).Resolved(parse))
    requires forall i | 0 <= i < |c.lookups| :: SameAnswer(c.lookups[i].outcome, d.lookups[i].outcome)
    requires FailuresUnambiguous(c.PassFrom(status))
    requires StoreAfter(parse, before, status, c, between)
    requires StoreAfter(parse, between, StatusAfter(parse, status, c), d, after)
    ensures after == between
  {
    RepeatedReconcileIsQuietIff(parse, before, between, after, status, c, d);
    UnambiguousFallback(parse, c.PassFrom(status), |c.lookups|);
    hide StoreAfter, Fallback, Pass.Resolved, Owned, FailuresUnambiguous, SameAnswer;
  }

  /** The rules of an admitted policy have patterns of their own. */
  lemma AdmittedUnambiguous(p: Pass, snoop: bool)
    requires p.Complete() && Webhook.Admissible(p.egress, snoop)
    ensures FailuresUnambiguous(p)
  {
    hide Webhook.IsFQDN, Webhook.PortsValid;
    forall i, j | 0 <= i < |p.egress| && 0 <= j < |p.egress|
        && p.egress[i].pattern == p.egress[j].pattern ensures i == j {
      assert Profiler.Patterns(p.egress)[i] == Profiler.Patterns(p.egress)[j];
    }
  }

  /** Hence repeating a reconcile of an admitted cluster policy, with the same answers, is always quiet. */
  lemma AdmittedRepeatsQuietly(
    parse: Parser, before: Store, between: Store, after: Store, status: ClusterStatus, c: ClusterCycle, d: ClusterCycle,
    snoop: bool)
    requires Owned(before) && c.Complete() && d.Complete() && d.cp == c.cp && d.matched == c.matched
    requires c.faults == NO_FAULTS && !c.statusFails && c.FansOut(c.PassFrom(status).Resolved(parse))
    requires forall i | 0 <= i < |c.lookups| :: SameAnswer(c.lookups[i].outcome, d.lookups[i].outcome)
    requires Webhook.Admissible(c.cp.spec.egress, snoop)
    requires StoreAfter(parse, before, status, c, between)
    requires StoreAfter(parse, between, StatusAfter(parse, status, c), d, after)
    ensures after == between
  {
    AdmittedUnambiguous(c.PassFrom(status), snoop);
    hide StoreAfter, Pass.Resolved, Owned, FailuresUnambiguous, SameAnswer;
    RepeatedReconcileIsQuiet(parse, before, between, after, status, c, d);
  }
}
