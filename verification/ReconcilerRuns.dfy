/** Properties of whole runs of the namespaced controller: arbitrary specs, lookups, faults and deletions. */
module ReconcilerRuns {
  import opened Strings
  import opened Addresses
  import opened IPFilter
  import opened TTLQueues
  import opened Policies
  import opened NetPol
  import opened ResolutionPass
  import opened Reconciler

  /** Anything that can happen to one policy: a reconcile, or somebody deleting the generated object. */
  datatype Event = Reconciled(c: Cycle) | ObjectDeleted

  /**
   * A world with two facts about its past: the snapshot that was last written to the store, and the
   * snapshot of the last cycle that applied successfully, whether by writing or by skipping.
   */
  datatype Trace = Trace(world: World, written: Option<ResolvedPolicy>, applied: Option<ResolvedPolicy>)

  predicate Complete(events: seq<Event>) {
    forall e | e in events :: e.Reconciled? ==> e.c.Complete()
  }

  /** The identity of one policy and the address parser in use. */
  datatype Controller = Controller(parse: Parser, name: string, namespace: string) {

    ghost function Snap(w: World, c: Cycle): ResolvedPolicy
      requires c.Complete()
    {
      Snapshot(parse, name, namespace, w.status, c)
    }

    /** The reconcile reaches the store comparison and gets through it. */
    ghost predicate AppliesCycle(w: World, c: Cycle)
      requires c.Complete()
    {
      Enforces(parse, w.status, c) && Applies(w.stored, Built(parse, Snap(w, c)), c.faults)
    }

    ghost function Step(t: Trace, e: Event): Trace
      requires e.Reconciled? ==> e.c.Complete()
    {
      match e
      case ObjectDeleted => Trace(t.world.(stored := None), None, None)
      case Reconciled(c) =>
        var next := Next(parse, name, namespace, t.world, c);
        var snap := Snap(t.world, c);
        if AppliesCycle(t.world, c) then
          Trace(next, if NeedsWrite(t.world.stored, Built(parse, snap)) then Some(snap) else t.written, Some(snap))
        else Trace(next, t.written, t.applied)
    }

    /** The trace of a run from an empty status and no stored object. */
    ghost function Run(events: seq<Event>): Trace
      requires Complete(events)
    {
      if events == [] then Trace(World(EMPTY_STATUS, None), None, None)
      else Step(Run(events[..|events| - 1]), events[|events| - 1])
    }

    /** A cycle that enforces without faults is applied, and written if the CIDRs differ. */
    lemma AppliedStep(t: Trace, c: Cycle)
      requires c.Complete() && Enforces(parse, t.world.status, c) && !c.faults.get && !c.faults.write
      ensures var next, snap := Step(t, Reconciled(c)), Snap(t.world, c);
              && next.applied == Some(snap)
              && next.written == if NeedsWrite(t.world.stored, Built(parse, snap)) then Some(snap) else t.written
    {
      hide Enforces, NeedsWrite, Built, Snapshot, NextStored, NextStatus;
    }

    function BuiltObject(fp: Option<ResolvedPolicy>): Option<NetworkPolicy> {
      if fp.Some? then Some(Built(parse, fp.value)) else None
    }

    ghost predicate Consistent(t: Trace) {
      && t.world.stored == BuiltObject(t.written)
      && (t.written.Some? <==> t.applied.Some?)
      && (t.written.Some? ==>
            && t.written.value.name == t.applied.value.name == name
            && t.written.value.namespace == t.applied.value.namespace == namespace
            && SameCIDRs(Built(parse, t.written.value).egress, Built(parse, t.applied.value).egress))
    }

    lemma StepConsistent(t: Trace, e: Event)
      requires Consistent(t) && (e.Reconciled? ==> e.c.Complete())
      ensures Consistent(Step(t, e))
    {
      hide Built, SameCIDRs, Enforces, NextStatus;
      if e.Reconciled? && AppliesCycle(t.world, e.c) {
        var desired := Built(parse, Snap(t.world, e.c));
        if NeedsWrite(t.world.stored, desired) {
          assert Overwritten(t.world.stored, desired) == desired;
          SameCIDRsReflexive(desired);
        }
      }
    }

    lemma SameCIDRsReflexive(np: NetworkPolicy)
      ensures SameCIDRs(np.egress, np.egress)
    {
    }

    /**
     * At every point of every run the stored object is exactly what `Build` made of the last
     * written snapshot, and has the CIDRs of the last applied one.
     */
    lemma {:induction false} StoredIsLastWritten(events: seq<Event>)
      requires Complete(events)
      ensures Consistent(Run(events))
    {
      if events != [] {
        StoredIsLastWritten(events[..|events| - 1]);
        StepConsistent(Run(events[..|events| - 1]), events[|events| - 1]);
      }
    }

    /**
     * At every point of every run the stored object governs the pods and allows the traffic that `Build`
     * makes of the last applied cycle exactly when that cycle and the last written one select the same
     * pods and, unless that is none, open the same ports beyond DNS.
     */
    lemma StoredTrafficIff(events: seq<Event>)
      requires Complete(events) && Run(events).applied.Some?
      ensures Run(events).world.stored.Some? && Run(events).written.Some?
      ensures var t := Run(events);
              SameEffect(parse, t.world.stored.value, Built(parse, t.applied.value))
              <==> && SameSelection(t.written.value.podSelector, t.applied.value.podSelector)
                   && (Satisfiable(t.written.value.podSelector) ==>
                         GrantBeyondDNS(parse, t.written.value) == GrantBeyondDNS(parse, t.applied.value))
    {
      StoredIsLastWritten(events);
      var t := Run(events);
      SkippedWriteHarmlessIff(parse, t.written.value, t.applied.value);
    }

    // ---- runs whose selector and ports stay the same and whose recorded hosts have addresses ----

    ghost predicate SteadySnapshot(fp: ResolvedPolicy, selector: LabelSelector, grant: Grant) {
      && fp.podSelector == selector
      && PortGrant(PooledPorts(fp.egress)) == grant
      && (fp.hosts == [] || !NoAddresses(fp.hosts))
    }

    /** Every cycle that applied had this selector and these ports, and an address if it recorded any host. */
    ghost predicate Steady(events: seq<Event>, selector: LabelSelector, grant: Grant)
      requires Complete(events)
    {
      if events == [] then true
      else
        var before, e := Run(events[..|events| - 1]), events[|events| - 1];
        && Steady(events[..|events| - 1], selector, grant)
        && (e.Reconciled? && AppliesCycle(before.world, e.c)
           ==> SteadySnapshot(Snap(before.world, e.c), selector, grant))
    }

    lemma {:induction false} SteadyInvariant(events: seq<Event>, selector: LabelSelector, grant: Grant)
      requires Complete(events) && Steady(events, selector, grant)
      ensures var t := Run(events);
              && (t.written.Some? ==> SteadySnapshot(t.written.value, selector, grant))
              && (t.applied.Some? ==> SteadySnapshot(t.applied.value, selector, grant))
    {
      if events != [] {
        SteadyInvariant(events[..|events| - 1], selector, grant);
      }
    }

    /** In a steady run skipped writes and frozen cycles never change which pods are governed or what is allowed. */
    lemma SteadyRunsStayExact(events: seq<Event>, selector: LabelSelector, grant: Grant)
      requires Complete(events) && Steady(events, selector, grant) && Run(events).applied.Some?
      ensures Run(events).world.stored.Some?
      ensures SameEffect(parse, Run(events).world.stored.value, Built(parse, Run(events).applied.value))
    {
      SteadyInvariant(events, selector, grant);
      StoredTrafficIff(events);
      var t := Run(events);
      var f, g := t.written.value, t.applied.value;
      StoredIsLastWritten(events);
      hide Run, Built, SameEffect, Selects;
      forall a { SameCIDRsSameRecorded(parse, f, g, a); }
      SameCIDRsSameRecorded(parse, f, g, V4(0));
    }

    // ---- what every recorded host has ----

    /** Whatever the answers of this pass record has the property. */
    ghost predicate RecordsOnly(p: Pass, good: ResolvedHost -> bool)
      requires p.Complete()
    {
      forall i | 0 <= i < |p.egress| && p.lookups[i].outcome.Answered? ::
        p.At(parse, i).host.Some? ==> good(p.At(parse, i).host.value)
    }

    ghost predicate All(hosts: seq<ResolvedHost>, good: ResolvedHost -> bool) {
      forall h | h in hosts :: good(h)
    }

    /** Retained hosts keep a property that the recorded ones had and the answers give. */
    lemma {:induction false} PassKeeps(p: Pass, n: nat, good: ResolvedHost -> bool)
      requires p.Complete() && n <= |p.egress| && All(p.prev, good) && RecordsOnly(p, good)
      ensures All(p.Hosts(parse, n), good)
    {
      hide RuleEffect;
      if n > 0 {
        PassKeeps(p, n - 1, good);
        EffectKeeps(p, n - 1, good);
        HostsStep(parse, p, n - 1);
        hide Pass.Hosts, Pass.At;
      }
    }

    lemma EffectKeeps(p: Pass, i: nat, good: ResolvedHost -> bool)
      requires p.Complete() && i < |p.egress| && All(p.prev, good) && RecordsOnly(p, good)
      ensures p.At(parse, i).host.Some? ==> good(p.At(parse, i).host.value)
    {
      PreviousRecorded(p.prev, p.egress[i].pattern);
    }

    /** In no cycle, whatever the status then, do the answers record a host without the property. */
    ghost predicate AlwaysRecords(events: seq<Event>, good: ResolvedHost -> bool)
      requires Complete(events)
    {
      forall e, status | e in events && e.Reconciled? :: RecordsOnly(PassOf(e.c, status), good)
    }

    lemma StepKeeps(t: Trace, e: Event, good: ResolvedHost -> bool)
      requires e.Reconciled? ==> e.c.Complete() && RecordsOnly(PassOf(e.c, t.world.status), good)
      requires All(t.world.status.resolvedHosts, good) && (t.written.Some? ==> All(t.written.value.hosts, good))
      requires t.applied.Some? ==> All(t.applied.value.hosts, good)
      ensures All(Step(t, e).world.status.resolvedHosts, good)
      ensures Step(t, e).written.Some? ==> All(Step(t, e).written.value.hosts, good)
      ensures Step(t, e).applied.Some? ==> All(Step(t, e).applied.value.hosts, good)
      ensures e.Reconciled? ==> All(Snap(t.world, e.c).hosts, good)
    {
      hide All, Built, Enforces, Applies, NeedsWrite, RuleEffect, DivergenceCall, RecordsOnly;
      if e.Reconciled? {
        PassKeeps(PassOf(e.c, t.world.status), |e.c.spec.egress|, good);
      }
    }

    /** Then every reachable status, written object and applied cycle has only hosts with the property. */
    lemma {:induction false} RunKeeps(events: seq<Event>, good: ResolvedHost -> bool)
      requires Complete(events) && AlwaysRecords(events, good)
      ensures var t := Run(events);
              && All(t.world.status.resolvedHosts, good)
              && (t.written.Some? ==> All(t.written.value.hosts, good))
              && (t.applied.Some? ==> All(t.applied.value.hosts, good))
    {
      if events != [] {
        hide Step, All, RecordsOnly;
        var before, e := events[..|events| - 1], events[|events| - 1];
        RunKeeps(before, good);
        StepKeeps(Run(before), e, good);
      }
    }

    // ---- blocked ranges ----

    /** Every text recorded for a host passes the range filter. */
    ghost predicate Safe(sec: Option<SecuritySpec>, hosts: seq<ResolvedHost>) {
      forall h, ip | h in hosts && ip in h.ips :: Passes(parse, sec, ip)
    }

    ghost predicate SafeHost(sec: Option<SecuritySpec>, h: ResolvedHost) {
      forall ip | ip in h.ips :: Passes(parse, sec, ip)
    }

    lemma PassSafe(p: Pass, n: nat)
      requires p.Complete() && n <= |p.egress| && Safe(p.sec, p.prev)
      ensures Safe(p.sec, p.Hosts(parse, n))
    {
      hide Passes, Pass.Hosts;
      AnswersSafe(p);
      PassKeeps(p, n, h => SafeHost(p.sec, h));
      assert forall h | h in p.Hosts(parse, n) :: SafeHost(p.sec, h);
    }

    /** An answer adds only safe texts. */
    lemma AnswersSafe(p: Pass)
      requires p.Complete()
      ensures RecordsOnly(p, h => SafeHost(p.sec, h))
    {
      hide Passes;
    }

    /** One rule adds a host under its own pattern only. */
    lemma EffectPattern(p: Pass, i: nat)
      requires p.Complete() && i < |p.egress|
      ensures p.At(parse, i).host.Some? ==> p.At(parse, i).host.value.hostname == p.egress[i].pattern
    {
      PreviousRecorded(p.prev, p.egress[i].pattern);
    }

    ghost predicate FixedSecurity(events: seq<Event>, sec: Option<SecuritySpec>) {
      forall e | e in events :: e.Reconciled? ==> e.c.spec.security == sec
    }

    /** No reachable status and no written object ever holds an address of an enabled blocked range. */
    lemma RangeSafety(events: seq<Event>, sec: Option<SecuritySpec>)
      requires Complete(events) && FixedSecurity(events, sec)
      ensures Safe(sec, Run(events).world.status.resolvedHosts)
      ensures Run(events).written.Some? ==> Safe(sec, Run(events).written.value.hosts)
    {
      hide Passes, Run, RecordsOnly;
      var good := h => SafeHost(sec, h);
      forall e, status | e in events && e.Reconciled? ensures RecordsOnly(PassOf(e.c, status), good) {
        AnswersSafe(PassOf(e.c, status));
      }
      RunKeeps(events, good);
      assert forall h | h in Run(events).world.status.resolvedHosts :: SafeHost(sec, h);
      assert Run(events).written.Some? ==> forall h | h in Run(events).written.value.hosts :: SafeHost(sec, h);
    }

    /**
     * The stored object keeps all non-DNS traffic out of the blocked ranges exactly when the written
     * snapshot has no hosts, or an address, or no ports beyond DNS, or no range is enabled at all.
     */
    lemma StoredTrafficSafeIff(events: seq<Event>, sec: Option<SecuritySpec>)
      requires Complete(events) && FixedSecurity(events, sec) && Run(events).written.Some?
      ensures Run(events).world.stored.Some?
      ensures var t, fp := Run(events), Run(events).written.value;
              (forall x | Allows(parse, t.world.stored.value.egress, x) && !IsDNS(x) :: !InBlockedRange(sec, x.dest))
              <==> || fp.hosts == [] || !NoAddresses(fp.hosts) || PortGrant(PooledPorts(fp.egress)) == NoPorts
                   || forall field :: !Enabled(sec, field)
    {
      StoredIsLastWritten(events);
      RangeSafety(events, sec);
      hide Run, Allows, Built, InBlockedRange;
      var fp := Run(events).written.value;
      ConfinedIffAddressed(parse, fp);
      SafeAddresses(fp.hosts, sec);
      var grant := PortGrant(PooledPorts(fp.egress));
      if fp.hosts != [] && NoAddresses(fp.hosts) && grant != NoPorts && exists field :: Enabled(sec, field) {
        var x := UnsafeTraffic(fp, sec);
      }
    }

    lemma SafeAddresses(hosts: seq<ResolvedHost>, sec: Option<SecuritySpec>)
      requires Safe(sec, hosts)
      ensures forall a | Recorded(parse, hosts, a) :: !InBlockedRange(sec, a)
      ensures (forall field :: !Enabled(sec, field)) ==> forall a :: !InBlockedRange(sec, a)
    {
      forall a | Recorded(parse, hosts, a) ensures !InBlockedRange(sec, a) {
        var h, ip :| h in hosts && ip in h.ips && parse(ip) == Some(a);
        assert Passes(parse, sec, ip);
      }
    }

    /** With every destination open, some packet reaches an enabled range. */
    lemma UnsafeTraffic(fp: ResolvedPolicy, sec: Option<SecuritySpec>) returns (x: Traffic)
      requires fp.hosts != [] && NoAddresses(fp.hosts) && PortGrant(PooledPorts(fp.egress)) != NoPorts
      requires exists field :: Enabled(sec, field)
      ensures Allows(parse, Built(parse, fp).egress, x) && !IsDNS(x) && InBlockedRange(sec, x.dest)
    {
      var field :| Enabled(sec, field);
      var a := match field
        case BlockLoopback => V4(0x7F00_0001)
        case BlockPrivateIPs => V4(0x0A00_0001)
        case BlockLinkLocal => V4(0xA9FE_0001);
      x := GrantsDiffer(PortGrant(PooledPorts(fp.egress)), NoPorts, a);
      BuildDenotesGrant(parse, fp, x);
    }

    // ---- last-known-good retention ----

    /** The cycle has a rule for this hostname, and every lookup for it fails. */
    predicate OnlyFails(c: Cycle, hostname: string)
      requires c.Complete()
    {
      && (exists i | 0 <= i < |c.lookups| :: c.spec.egress[i].pattern == hostname)
      && (forall i | 0 <= i < |c.lookups| :: c.spec.egress[i].pattern == hostname ==> c.lookups[i].outcome.Failed?)
    }

    /** The first `n` rules contain one for this hostname. */
    predicate HasRule(p: Pass, n: nat, hostname: string)
      requires n <= |p.egress|
    {
      exists i | 0 <= i < n :: p.egress[i].pattern == hostname
    }

    lemma NoRuleYet(p: Pass, hostname: string)
      ensures !HasRule(p, 0, hostname)
    {
    }

    lemma RuleFound(p: Pass, n: nat, hostname: string)
      requires 0 < n <= |p.egress|
      ensures HasRule(p, n, hostname) <==> HasRule(p, n - 1, hostname) || p.egress[n - 1].pattern == hostname
    {
    }

    lemma {:induction false} PassRetains(p: Pass, n: nat, hostname: string)
      requires p.Complete() && n <= |p.egress| && (p.scope.Namespaced? ==> '*' !in hostname)
      requires forall i | 0 <= i < |p.egress| :: p.egress[i].pattern == hostname ==> p.lookups[i].outcome.Failed?
      ensures Previous(p.Hosts(parse, n), hostname)
              == if HasRule(p, n, hostname) then Previous(p.prev, hostname) else None
    {
      hide RuleEffect, HasRule;
      if n == 0 {
        NoRuleYet(p, hostname);
      } else {
        hide Previous;
        PassRetains(p, n - 1, hostname);
        RuleRetains(p, n - 1, hostname);
        var e := p.At(parse, n - 1);
        if e.host.Some? {
          PreviousAppend(p.Hosts(parse, n - 1), e.host.value, hostname);
        } else {
          assert p.Hosts(parse, n) == p.Hosts(parse, n - 1);
        }
        RuleFound(p, n, hostname);
      }
    }

    /** The rule for this hostname contributes the previous entry; any other rule contributes another name. */
    lemma RuleRetains(p: Pass, i: nat, hostname: string)
      requires p.Complete() && i < |p.egress| && (p.scope.Namespaced? ==> '*' !in hostname)
      requires p.egress[i].pattern == hostname ==> p.lookups[i].outcome.Failed?
      ensures var e := p.At(parse, i);
              if p.egress[i].pattern == hostname then e.host == Previous(p.prev, hostname)
              else e.host.Some? ==> e.host.value.hostname != hostname
      ensures Previous(p.prev, hostname).Some? ==> Previous(p.prev, hostname).value.hostname == hostname
    {
      PreviousRecorded(p.prev, p.egress[i].pattern);
      PreviousRecorded(p.prev, hostname);
    }

    /** One cycle of failures keeps the entry, and the policy that cycle builds allows its addresses. */
    lemma CycleRetains(w: World, c: Cycle, hostname: string)
      requires c.Complete() && '*' !in hostname && OnlyFails(c, hostname)
      requires Previous(w.status.resolvedHosts, hostname).Some?
      ensures var entry := Previous(w.status.resolvedHosts, hostname);
              && Previous(Snap(w, c).hosts, hostname) == entry
              && Previous(Next(parse, name, namespace, w, c).status.resolvedHosts, hostname) == entry
      ensures forall ip, x: Traffic | ip in Previous(w.status.resolvedHosts, hostname).value.ips ::
                parse(ip) == Some(x.dest) && PortMatches(PooledPorts(c.spec.egress), x)
                ==> Allows(parse, Built(parse, Snap(w, c)).egress, x)
    {
      PassRetains(PassOf(c, w.status), |c.spec.egress|, hostname);
      PreviousRecorded(Snap(w, c).hosts, hostname);
      forall ip, x: Traffic | ip in Previous(w.status.resolvedHosts, hostname).value.ips && parse(ip) == Some(x.dest)
                              && PortMatches(PooledPorts(c.spec.egress), x)
        ensures Allows(parse, Built(parse, Snap(w, c)).egress, x)
      {
        BuildDenotes(parse, Snap(w, c), x);
      }
    }

    /**
     * However long the failures last from event `k` on, and whatever else happens meanwhile, the
     * recorded entry survives unchanged.
     */
    lemma {:induction false} OutageRetains(events: seq<Event>, k: nat, hostname: string)
      requires Complete(events) && k <= |events| && '*' !in hostname
      requires forall i | k <= i < |events| :: events[i].Reconciled? ==> OnlyFails(events[i].c, hostname)
      requires Previous(Run(events[..k]).world.status.resolvedHosts, hostname).Some?
      ensures Previous(Run(events).world.status.resolvedHosts, hostname) ==
                Previous(Run(events[..k]).world.status.resolvedHosts, hostname)
      decreases |events|
    {
      hide OnlyFails, Previous, Step;
      if k == |events| {
        assert events[..k] == events;
      } else {
        var n := |events| - 1;
        assert events[..n][..k] == events[..k];
        OutageRetains(events[..n], k, hostname);
        StepRetains(Run(events[..n]), events[n], hostname);
      }
    }

    /** One more event of an outage leaves the entry alone. */
    lemma StepRetains(t: Trace, e: Event, hostname: string)
      requires e.Reconciled? ==> e.c.Complete() && OnlyFails(e.c, hostname)
      requires '*' !in hostname && Previous(t.world.status.resolvedHosts, hostname).Some?
      ensures Previous(Step(t, e).world.status.resolvedHosts, hostname)
              == Previous(t.world.status.resolvedHosts, hostname)
    {
      hide Next, AppliesCycle, NeedsWrite, OnlyFails, Previous;
      if e.Reconciled? {
        CycleRetains(t.world, e.c, hostname);
      }
    }
  }

  // ---- requeue ----

  lemma {:induction false} TrackedDeadlines(parse: Parser, p: Pass, n: nat, h: string)
    requires p.Complete() && n <= |p.egress| && h in p.Deadlines(parse, n)
    ensures exists i | 0 <= i < n ::
              p.egress[i].pattern == h && p.At(parse, i).deadline == Some(p.Deadlines(parse, n)[h])
  {
    hide RuleEffect;
    var e := p.At(parse, n - 1);
    if e.deadline.None? || p.egress[n - 1].pattern != h {
      TrackedDeadlines(parse, p, n - 1, h);
    }
  }

  /** The answered TTLs are what `clampTTL` produces, or zero; lookups happen in [0, now]. */
  predicate ClampedLookups(lookups: seq<Lookup>, now: Time) {
    forall l | l in lookups ::
      && 0 <= l.at <= now
      && (l.outcome.Answered? ==> l.outcome.res.ttl == 0 || TTL_FLOOR <= l.outcome.res.ttl <= TTL_CEILING)
  }

  /**
   * The next reconcile is between a minute and five minutes away, or between five seconds and five
   * minutes with an override, whatever value the override has.
   */
  lemma RequeueBounds(parse: Parser, c: Cycle, status: Status, after: int)
    requires c.Complete()
    requires IsNextRequeue(c.spec.resolutionTTLOverride, PassOf(c, status).Deadlines(parse, |c.spec.egress|),
                           c.now, after)
    ensures c.spec.resolutionTTLOverride.Some? ==> TTL_FLOOR <= after <= TTL_CEILING
    ensures c.spec.resolutionTTLOverride.None? ==> DEFAULT_POLL_INTERVAL <= after
    ensures c.spec.resolutionTTLOverride.None? && ClampedLookups(c.lookups, c.now) ==> after <= TTL_CEILING
  {
    hide RuleEffect;
    var p := PassOf(c, status);
    var m := p.Deadlines(parse, |c.spec.egress|);
    if c.spec.resolutionTTLOverride.None? && ClampedLookups(c.lookups, c.now) && m != map[] {
      var t :| IsEarliest(m, t) && after == if t == ZERO_TIME then DEFAULT_POLL_INTERVAL
          else Max(DEFAULT_POLL_INTERVAL, t - c.now);
      var h :| h in m && m[h] == t;
      TrackedDeadlines(parse, p, |c.spec.egress|, h);
      var i :| 0 <= i < |p.egress| && p.At(parse, i).deadline == Some(t);
      DeadlineSoon(parse, p, i, c.now);
    }
  }

  lemma DeadlineSoon(parse: Parser, p: Pass, i: nat, now: Time)
    requires p.Complete() && i < |p.egress| && p.At(parse, i).deadline.Some? && ClampedLookups(p.lookups, now)
    ensures p.At(parse, i).deadline.value <= now + TTL_CEILING
  {
    assert p.lookups[i] in p.lookups;
  }
}
