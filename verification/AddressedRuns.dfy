/** Runs in which consensus leaves an address of every answer: failing closed then reaches the stored object. */
module AddressedRuns {
  import opened Strings
  import opened Addresses
  import opened IPFilter
  import opened Policies
  import opened NetPol
  import opened ResolutionPass
  import opened Reconciler
  import opened ReconcilerRuns
  import opened RangeRuns
  import Cluster = ClusterReconciler
  import C = ClusterStatusRuns

  /** Consensus leaves some address of every answer, whether or not it is an address that may be recorded. */
  ghost predicate AnswersLeft(sec: Option<SecuritySpec>, lookups: seq<Lookup>) {
    forall l | l in lookups && l.outcome.Answered? :: exists ip | ip in l.outcome.res.ips ::
        Backed(sec, l.outcome.res, ip)
  }

  /** With consensus off that takes no more than answers that hold some address. */
  lemma ConsensusOffLeavesAll(sec: Option<SecuritySpec>, lookups: seq<Lookup>)
    requires sec.None? || sec.value.minResolverAgreement.None? || sec.value.minResolverAgreement.value <= 1
    ensures AnswersLeft(sec, lookups) <==> forall l | l in lookups && l.outcome.Answered? :: l.outcome.res.ips != []
  {
    forall l | l in lookups && l.outcome.Answered? && l.outcome.res.ips != []
      ensures exists ip | ip in l.outcome.res.ips :: Backed(sec, l.outcome.res, ip)
    {
      assert l.outcome.res.ips[0] in l.outcome.res.ips && Backed(sec, l.outcome.res, l.outcome.res.ips[0]);
    }
  }

  predicate HasAddress(h: ResolvedHost) {
    h.ips != []
  }

  /** Then every host that an answer records has an address. */
  lemma AnswersAddressed(k: Controller, p: Pass)
    requires p.Complete() && AnswersLeft(p.sec, p.lookups)
    ensures k.RecordsOnly(p, h => HasAddress(h))
  {
    hide Backed;
    forall i | 0 <= i < |p.egress| && p.lookups[i].outcome.Answered? && p.At(k.parse, i).host.Some?
      ensures HasAddress(p.At(k.parse, i).host.value)
    {
      assert p.lookups[i] in p.lookups;
      AnswerFailsClosed(k.parse, p.scope, p.sec, p.prev, p.egress[i].pattern, p.lookups[i]);
      hide RuleEffect;
    }
  }

  ghost predicate AlwaysLeft(events: seq<Event>)
    requires Complete(events)
  {
    forall e | e in events :: e.Reconciled? ==> AnswersLeft(e.c.spec.security, e.c.lookups)
  }

  /** In every reachable state every recorded, written or applied host has an address. */
  lemma RecordedHostsHaveAddresses(k: Controller, events: seq<Event>)
    requires Complete(events) && AlwaysLeft(events)
    ensures var t := k.Run(events);
            && (forall h | h in t.world.status.resolvedHosts :: h.ips != [])
            && (t.written.Some? ==> forall h | h in t.written.value.hosts :: h.ips != [])
            && (t.applied.Some? ==> forall h | h in t.applied.value.hosts :: h.ips != [])
  {
    hide AnswersLeft, Controller.Run, Controller.RecordsOnly;
    var good := h => HasAddress(h);
    forall e, status | e in events && e.Reconciled? ensures k.RecordsOnly(PassOf(e.c, status), good) {
      AnswersAddressed(k, PassOf(e.c, status));
    }
    k.RunKeeps(events, good);
    var t := k.Run(events);
    assert forall h | h in t.world.status.resolvedHosts :: good(h);
    assert t.written.Some? ==> forall h | h in t.written.value.hosts :: good(h);
    assert t.applied.Some? ==> forall h | h in t.applied.value.hosts :: good(h);
  }

  /** So the generated object is never wide open: beyond DNS it reaches recorded addresses only. */
  lemma StoredConfined(k: Controller, events: seq<Event>)
    requires Complete(events) && AlwaysLeft(events) && k.Run(events).written.Some?
    ensures k.Run(events).world.stored.Some?
    ensures forall x | Allows(k.parse, k.Run(events).world.stored.value.egress, x) && !IsDNS(x) ::
              Recorded(k.parse, k.Run(events).written.value.hosts, x.dest)
  {
    k.StoredIsLastWritten(events);
    RecordedHostsHaveAddresses(k, events);
    var fp := k.Run(events).written.value;
    hide Controller.Run, AlwaysLeft, Built, Allows, Recorded;
    assert fp.hosts != [] ==> fp.hosts[0] in fp.hosts;
    ConfinedIffAddressed(k.parse, fp);
  }

  /**
   * And it keeps non-DNS traffic out of every range that all specs of the run block: out of the loopback,
   * private and link-local ranges as long as no spec sets the flag in question to `false`.
   */
  lemma StoredStaysOutOfRange(k: Controller, events: seq<Event>, range: Addr -> bool)
    requires Complete(events) && AlwaysLeft(events) && AlwaysBlocked(events, range) && k.Run(events).written.Some?
    ensures k.Run(events).world.stored.Some?
    ensures forall x | Allows(k.parse, k.Run(events).world.stored.value.egress, x) && !IsDNS(x) :: !range(x.dest)
  {
    StoredConfined(k, events);
    RangeNeverRecorded(k, events, range);
    hide Controller.Run, AlwaysLeft, AlwaysBlocked, Allows;
    var hosts := k.Run(events).written.value.hosts;
    forall a | Recorded(k.parse, hosts, a) ensures !range(a) {
      var h, ip :| h in hosts && ip in h.ips && k.parse(ip) == Some(a);
      assert HostAvoids(k.parse, range, h);
    }
  }

  lemma StoredStaysOutOfBlockedRanges(k: Controller, events: seq<Event>)
    requires Complete(events) && AlwaysLeft(events) && k.Run(events).written.Some?
    ensures k.Run(events).world.stored.Some?
    ensures forall x | Allows(k.parse, k.Run(events).world.stored.value.egress, x) && !IsDNS(x) ::
              && (LoopbackStays(Specs(events)) ==> !InLoopbackRange(x.dest))
              && (PrivateStays(Specs(events)) ==> !InPrivateRange(x.dest))
              && (LinkLocalStays(Specs(events)) ==> !InLinkLocalRange(x.dest))
  {
    hide Controller.Run, AlwaysLeft, Allows, InLoopbackRange, InPrivateRange, InLinkLocalRange;
    StoredConfined(k, events);
    assert forall e | e in events && e.Reconciled? :: e.c.spec.security in Specs(events);
    if LoopbackStays(Specs(events)) {
      StoredStaysOutOfRange(k, events, InLoopbackRange);
    }
    if PrivateStays(Specs(events)) {
      StoredStaysOutOfRange(k, events, InPrivateRange);
    }
    if LinkLocalStays(Specs(events)) {
      StoredStaysOutOfRange(k, events, InLinkLocalRange);
    }
  }

  // ---- steady runs, from what the specs and the answers say ----

  /** Every cycle's spec selects these pods and pools these ports, and its answers keep an address. */
  ghost predicate SteadySpecs(events: seq<Event>, selector: LabelSelector, grant: Grant)
    requires Complete(events)
  {
    forall e | e in events :: e.Reconciled? ==>
      && e.c.spec.podSelector == selector && PortGrant(PooledPorts(e.c.spec.egress)) == grant
      && AnswersLeft(e.c.spec.security, e.c.lookups)
  }

  lemma {:induction false} SteadySpecsAreSteady(
    k: Controller, events: seq<Event>, selector: LabelSelector, grant: Grant)
    requires Complete(events) && SteadySpecs(events, selector, grant)
    ensures k.Steady(events, selector, grant)
  {
    if events != [] {
      hide AnswersLeft, Controller.RecordsOnly, Controller.AppliesCycle, PortGrant;
      var before, e := events[..|events| - 1], events[|events| - 1];
      SteadySpecsAreSteady(k, before, selector, grant);
      RecordedHostsHaveAddresses(k, before);
      if e.Reconciled? {
        assert e in events;
        CycleAddressed(k, k.Run(before), e.c);
      }
    }
  }

  lemma CycleAddressed(k: Controller, t: Trace, c: Cycle)
    requires c.Complete() && AnswersLeft(c.spec.security, c.lookups) && forall h | h in t.world.status.resolvedHosts ::
             h.ips != []
    ensures k.Snap(t.world, c).hosts == [] || !NoAddresses(k.Snap(t.world, c).hosts)
  {
    hide RuleEffect, AnswersLeft, Controller.RecordsOnly, Pass.Hosts;
    var good := h => HasAddress(h);
    AnswersAddressed(k, PassOf(c, t.world.status));
    k.PassKeeps(PassOf(c, t.world.status), |c.spec.egress|, good);
    var hosts := k.Snap(t.world, c).hosts;
    assert hosts != [] ==> hosts[0] in hosts && good(hosts[0]);
  }

  /**
   * When all specs of a run select the same pods and open the same ports, and consensus leaves an address of
   * every answer, the stored object always governs the pods and allows the traffic of the last applied cycle.
   */
  lemma SteadySpecsStayExact(k: Controller, events: seq<Event>, selector: LabelSelector, grant: Grant)
    requires Complete(events) && SteadySpecs(events, selector, grant) && k.Run(events).applied.Some?
    ensures k.Run(events).world.stored.Some?
    ensures SameEffect(k.parse, k.Run(events).world.stored.value, Built(k.parse, k.Run(events).applied.value))
  {
    hide SteadySpecs, Controller.Run, Controller.Steady, SameEffect, Built;
    SteadySpecsAreSteady(k, events, selector, grant);
    k.SteadyRunsStayExact(events, selector, grant);
  }

  // ---- cluster policies ----

  /** Under the same condition no cluster policy ever records, or fans out, a host without an address. */
  lemma ClusterHostsHaveAddresses(parse: Parser, cycles: seq<Cluster.ClusterCycle>, n: nat)
    requires C.Complete(cycles) && n <= |cycles|
    requires forall i | 0 <= i < |cycles| :: AnswersLeft(cycles[i].cp.spec.security, cycles[i].lookups)
    ensures forall h | h in C.Run(parse, cycles, n).resolvedHosts :: h.ips != []
    ensures n < |cycles| ==> forall h | h in C.ResolvedIn(parse, cycles, n) :: h.ips != []
  {
    hide AnswersLeft, C.Run, C.ResolvedIn, Controller.RecordsOnly;
    var k := Controller(parse, "", "");
    var good := h => HasAddress(h);
    forall i, status | 0 <= i < |cycles| ensures k.RecordsOnly(cycles[i].PassFrom(status), good) {
      AnswersAddressed(k, cycles[i].PassFrom(status));
    }
    C.ClusterRunKeeps(parse, cycles, good, n);
    assert forall h | h in C.Run(parse, cycles, n).resolvedHosts :: good(h);
    assert n < |cycles| ==> forall h | h in C.ResolvedIn(parse, cycles, n) :: good(h);
  }
}
