/** Concrete runs in which skipped writes and empty hosts do change what is allowed. */
module UnsteadyRuns {
  import opened Strings
  import opened Addresses
  import opened IPFilter
  import opened Policies
  import opened NetPol
  import opened ResolutionPass
  import opened Reconciler
  import opened ReconcilerRuns

  /**
   * A concrete cycle that records a host without addresses: one resolver answers, two must agree,
   * nothing is in a blocked range, and so the host is kept with an empty list.
   */
  lemma ConsensusCanEmptyAHost(k: Controller, port: PolicyPort)
    requires port.port != 53
    ensures var sec := Some(SecuritySpec(None, None, None, None, None, Some(2)));
            var answer := Resolution(["192.0.2.1"], [], 0, false, 0, map["1.1.1.1:53" := ["192.0.2.1"]]);
            var spec := PolicySpec(LabelSelector(map[], []), [FQDNRule("a.example", [port])], Enforce, None, sec);
            var c := Cycle(1, spec, [Lookup(Answered(answer), 1, 0)], 1, Faults(false, false, false));
            var w := World(EMPTY_STATUS, None);
            && c.Complete()
            && k.Snap(w, c).hosts != [] && NoAddresses(k.Snap(w, c).hosts)
            && !k.SteadySnapshot(k.Snap(w, c), spec.podSelector, PortGrant(PooledPorts(spec.egress)))
            && PortGrant(PooledPorts(spec.egress)) != NoPorts
  {
    var sec := Some(SecuritySpec(None, None, None, None, None, Some(2)));
    var results := map["1.1.1.1:53" := ["192.0.2.1"]];
    var answer := Resolution(["192.0.2.1"], [], 0, false, 0, results);
    var rule := FQDNRule("a.example", [port]);
    var spec := PolicySpec(LabelSelector(map[], []), [rule], Enforce, None, sec);
    var look := Lookup(Answered(answer), 1, 0);
    var c := Cycle(1, spec, [look], 1, Faults(false, false, false));
    AgreementSplit(results, "1.1.1.1:53", "192.0.2.1");
    assert results - {"1.1.1.1:53"} == map[];
    assert !Agreed(results, 2, "192.0.2.1");
    assert Kept(sec, answer) == [];
    assert Admitted(k.parse, sec, answer) == [] && Blocked(k.parse, sec, answer) == [];
    var p := PassOf(c, EMPTY_STATUS);
    var host := RecordedHost("a.example", look, []);
    assert p.At(k.parse, 0).host == Some(host);
    assert p.Hosts(k.parse, 1) == p.Hosts(k.parse, 0) + [host];
    assert spec.egress[..0] == [] && PooledPorts(spec.egress) == PooledPorts([]) + NetPorts([port]);
    assert PooledPorts(spec.egress)[0] == NetPort(ProtocolOf(port.protocol), port.port);
    assert NetPort(ProtocolOf(port.protocol), port.port) in PooledPorts(spec.egress);
    assert NetPort(ProtocolOf(port.protocol), port.port) !in DNS_PORTS;
  }

  // ---- changes that are never written ----

  /** A cycle with one rule, whose lookup answers one address. */
  function OneRuleCycle(ip: string, selector: LabelSelector, port: PolicyPort): Cycle {
    var answer := Resolution([ip], [], 0, false, 0, map[]);
    var spec := PolicySpec(selector, [FQDNRule("h", [port])], Enforce, None, None);
    Cycle(1, spec, [Lookup(Answered(answer), 1, 0)], 1, Faults(false, false, false))
  }

  function OnlyHost(ip: string): ResolvedHost {
    RecordedHost("h", Lookup(Answered(Resolution([ip], [], 0, false, 0, map[])), 1, 0), [ip])
  }

  lemma OneRuleEffect(parse: Parser, prev: seq<ResolvedHost>, ip: string)
    requires Passes(parse, None, ip)
    ensures var look := Lookup(Answered(Resolution([ip], [], 0, false, 0, map[])), 1, 0);
            RuleEffect(parse, Namespaced, None, prev, "h", look).host == Some(OnlyHost(ip))
  {
    var sec: Option<SecuritySpec> := None;
    var res := Resolution([ip], [], 0, false, 0, map[]);
    FilterOne(ip, ip => Passes(parse, sec, ip));
    assert Kept(sec, res) == [ip];
    assert '*' !in "h" && [ip] != [];
    hide Passes, Filter, RuleEffect, RecordedHost;
    AnsweredEffect(parse, Namespaced, sec, prev, "h", Lookup(Answered(res), 1, 0));
  }

  /** Whatever was recorded before, such a cycle records the one address and is not frozen. */
  lemma OneRuleSnapshot(k: Controller, w: World, ip: string, selector: LabelSelector, port: PolicyPort)
    requires Passes(k.parse, None, ip)
    ensures var c := OneRuleCycle(ip, selector, port);
            && c.Complete() && Enforces(k.parse, w.status, c)
            && k.Snap(w, c) == Snapped(k, ip, selector, port)
  {
    var c := OneRuleCycle(ip, selector, port);
    var p := PassOf(c, w.status);
    OneRuleEffect(k.parse, w.status.resolvedHosts, ip);
    hide RuleEffect, OnlyHost, Passes;
    assert p.At(k.parse, 0).host == Some(OnlyHost(ip));
    HostsStep(k.parse, p, 0);
    assert p.Hosts(k.parse, 1) == [] + [OnlyHost(ip)] == [OnlyHost(ip)];
  }

  function PortOf(port: PolicyPort): NetPort {
    NetPort(ProtocolOf(port.protocol), port.port)
  }

  /** The peers such a snapshot has, and the ports it opens. */
  lemma OneRuleGrant(k: Controller, fp: ResolvedPolicy, ip: string, port: PolicyPort)
    requires fp.egress == [FQDNRule("h", [port])] && fp.hosts == [OnlyHost(ip)]
    ensures Peers(k.parse, fp.hosts) == [HostCIDR(k.parse, ip)]
    ensures k.parse(ip).Some? && PortOf(port) !in DNS_PORTS ==> GrantBeyondDNS(k.parse, fp) == SomePorts({PortOf(port)})
  {
    assert fp.egress[..0] == [] && fp.hosts[..0] == [];
    assert PooledPorts(fp.egress) == PooledPorts([]) + NetPorts([port]) == [PortOf(port)];
    assert Peers(k.parse, fp.hosts) == Peers(k.parse, []) + HostPeers(k.parse, [ip]) == [HostCIDR(k.parse, ip)];
    assert (set p | p in [PortOf(port)]) == {PortOf(port)};
    assert ip in fp.hosts[0].ips && fp.hosts[0] in fp.hosts;
    if k.parse(ip).Some? {
      assert Recorded(k.parse, fp.hosts, k.parse(ip).value);
    }
  }

  function TwoCycles(ip: string, s: LabelSelector, p: PolicyPort, t: LabelSelector, q: PolicyPort): seq<Event> {
    [Reconciled(OneRuleCycle(ip, s, p)), Reconciled(OneRuleCycle(ip, t, q))]
  }

  lemma RunTwo(k: Controller, c: Cycle, d: Cycle)
    requires c.Complete() && d.Complete()
    ensures k.Run([Reconciled(c)]) == k.Step(Trace(World(EMPTY_STATUS, None), None, None), Reconciled(c))
    ensures k.Run([Reconciled(c), Reconciled(d)]) == k.Step(k.Run([Reconciled(c)]), Reconciled(d))
  {
    hide Controller.Step;
    var first, events := [Reconciled(c)], [Reconciled(c), Reconciled(d)];
    assert events[..1] == first && first[..0] == [];
  }

  function Snapped(k: Controller, ip: string, selector: LabelSelector, port: PolicyPort): ResolvedPolicy {
    ResolvedPolicy(k.name, k.namespace, selector, [FQDNRule("h", [port])], [OnlyHost(ip)])
  }

  /** After two such cycles the first is the one written and the second the one applied. */
  lemma SecondWriteSkipped(k: Controller, ip: string, s: LabelSelector, p: PolicyPort, t: LabelSelector, q: PolicyPort)
    requires Passes(k.parse, None, ip)
    ensures var run := k.Run(TwoCycles(ip, s, p, t, q));
            run.written == Some(Snapped(k, ip, s, p)) && run.applied == Some(Snapped(k, ip, t, q))
  {
    var c, d := OneRuleCycle(ip, s, p), OneRuleCycle(ip, t, q);
    var t0 := Trace(World(EMPTY_STATUS, None), None, None);
    var t1 := k.Run([Reconciled(c)]);
    RunTwo(k, c, d);
    OneRuleSnapshot(k, t0.world, ip, s, p);
    OneRuleSnapshot(k, t1.world, ip, t, q);
    k.StoredIsLastWritten([Reconciled(c)]);
    SameOnePeer(k, ip, s, p, t, q);
    hide Controller.Step, Controller.Run, Controller.Snap, Enforces, Built, Peers, Passes, Snapped;
    k.AppliedStep(t0, c);
    k.AppliedStep(t1, d);
  }

  lemma SameOnePeer(k: Controller, ip: string, s: LabelSelector, p: PolicyPort, t: LabelSelector, q: PolicyPort)
    ensures SameCIDRs(Built(k.parse, Snapped(k, ip, s, p)).egress, Built(k.parse, Snapped(k, ip, t, q)).egress)
  {
    OneRuleGrant(k, Snapped(k, ip, s, p), ip, p);
    OneRuleGrant(k, Snapped(k, ip, t, q), ip, q);
    BuiltPeers(k.parse, Snapped(k, ip, s, p));
    BuiltPeers(k.parse, Snapped(k, ip, t, q));
    hide Built, Peers;
  }

  /**
   * Two cycles that differ in the port of their one rule: the second write is skipped, and the stored
   * object goes on allowing the old port instead of the new one.
   */
  lemma PortChangeNotWritten(k: Controller, ip: string, selector: LabelSelector, p: PolicyPort, q: PolicyPort)
    requires Passes(k.parse, None, ip) && k.parse(ip).Some? && Satisfiable(selector)
    requires PortOf(p) != PortOf(q) && PortOf(p) !in DNS_PORTS && PortOf(q) !in DNS_PORTS
    ensures var events := TwoCycles(ip, selector, p, selector, q);
            && Complete(events)
            && var t := k.Run(events);
               t.applied.Some? && t.world.stored.Some?
                   && !SameEffect(k.parse, t.world.stored.value, Built(k.parse, t.applied.value))
  {
    var events := TwoCycles(ip, selector, p, selector, q);
    SecondWriteSkipped(k, ip, selector, p, selector, q);
    hide TwoCycles, Controller.Run, Passes, OnlyHost, Satisfiable;
    k.StoredTrafficIff(events);
    OneRuleGrant(k, k.Run(events).written.value, ip, p);
    OneRuleGrant(k, k.Run(events).applied.value, ip, q);
  }

  /**
   * Two cycles that differ in the pods they select: the second write is skipped, the stored object goes
   * on governing the old pods, and newly selected ones stay ungoverned.
   */
  lemma SelectorChangeNotWritten(k: Controller, ip: string, s: LabelSelector, t: LabelSelector, port: PolicyPort)
    requires Passes(k.parse, None, ip) && !SameSelection(s, t)
    ensures var events := TwoCycles(ip, s, port, t, port);
            && Complete(events)
            && var run := k.Run(events);
               run.applied.Some? && run.world.stored.Some?
               && run.world.stored.value.podSelector == s && run.applied.value.podSelector == t
               && !SameEffect(k.parse, run.world.stored.value, Built(k.parse, run.applied.value))
  {
    var events := TwoCycles(ip, s, port, t, port);
    SecondWriteSkipped(k, ip, s, port, t, port);
    hide TwoCycles, Controller.Run, Passes, OnlyHost, SameSelection;
    k.StoredTrafficIff(events);
    k.StoredIsLastWritten(events);
  }

  /** Selectors of two applications are such a pair. */
  lemma SelectorsOfTwoApps()
    ensures !SameSelection(LabelSelector(map["app" := "web"], []), LabelSelector(map["app" := "db"], []))
  {
    var web, db := LabelSelector(map["app" := "web"], []), LabelSelector(map["app" := "db"], []);
    assert "web" != "db" by { assert |"web"| == 3; }
    assert Selects(web, map["app" := "web"]);
    assert "app" in db.matchLabels && !Selects(db, map["app" := "web"]);
  }
}
