/** Which addresses can never be recorded, read off the security flags of the specs in force. */
module RangeRuns {
  import opened Strings
  import opened Addresses
  import opened IPFilter
  import opened Policies
  import opened ResolutionPass
  import opened Reconciler
  import opened ReconcilerRuns
  import Cluster = ClusterReconciler
  import C = ClusterStatusRuns

  ghost predicate HostAvoids(parse: Parser, range: Addr -> bool, h: ResolvedHost) {
    forall ip | ip in h.ips && parse(ip).Some? :: !range(parse(ip).value)
  }

  /** No text recorded for a host is an address of this range. */
  ghost predicate Avoids(parse: Parser, range: Addr -> bool, hosts: seq<ResolvedHost>) {
    forall h | h in hosts :: HostAvoids(parse, range, h)
  }

  /** A spec that keeps a range blocked never lets an answer record an address of it. */
  lemma AnswersAvoid(k: Controller, p: Pass, range: Addr -> bool)
    requires p.Complete() && forall a | range(a) :: !OptedOut(p.sec, a)
    ensures k.RecordsOnly(p, h => HostAvoids(k.parse, range, h))
  {
    hide OptedOut;
    forall i | 0 <= i < |p.egress| && p.lookups[i].outcome.Answered? && p.At(k.parse, i).host.Some?
      ensures HostAvoids(k.parse, range, p.At(k.parse, i).host.value)
    {
      AnswerFailsClosed(k.parse, p.scope, p.sec, p.prev, p.egress[i].pattern, p.lookups[i]);
      hide RuleEffect;
    }
  }

  /** Every cycle of the run blocks this range. */
  ghost predicate AlwaysBlocked(events: seq<Event>, range: Addr -> bool) {
    forall e, a | e in events && e.Reconciled? && range(a) :: !OptedOut(e.c.spec.security, a)
  }

  /** Then no reachable status, written object or applied cycle holds an address of it. */
  lemma RangeNeverRecorded(k: Controller, events: seq<Event>, range: Addr -> bool)
    requires Complete(events) && AlwaysBlocked(events, range)
    ensures var t := k.Run(events);
            && Avoids(k.parse, range, t.world.status.resolvedHosts)
            && (t.written.Some? ==> Avoids(k.parse, range, t.written.value.hosts))
            && (t.applied.Some? ==> Avoids(k.parse, range, t.applied.value.hosts))
  {
    hide OptedOut, HostAvoids, Controller.Run, Controller.RecordsOnly;
    var good := h => HostAvoids(k.parse, range, h);
    forall e, status | e in events && e.Reconciled? ensures k.RecordsOnly(PassOf(e.c, status), good) {
      AnswersAvoid(k, PassOf(e.c, status), range);
    }
    k.RunKeeps(events, good);
  }

  /** The flags of the specs in force over a run: which were never set to `false`. */
  predicate LoopbackStays(specs: set<Option<SecuritySpec>>) {
    forall s | s in specs && s.Some? :: s.value.blockLoopback != Some(false)
  }

  predicate PrivateStays(specs: set<Option<SecuritySpec>>) {
    forall s | s in specs && s.Some? :: s.value.blockPrivateIPs != Some(false)
  }

  predicate LinkLocalStays(specs: set<Option<SecuritySpec>>) {
    forall s | s in specs && s.Some? :: s.value.blockLinkLocal != Some(false)
  }

  function Specs(events: seq<Event>): set<Option<SecuritySpec>> {
    set e | e in events && e.Reconciled? :: e.c.spec.security
  }

  /** What the flags promise of a list of hosts: a flag never set to `false` keeps its range out. */
  ghost predicate FlagsHold(parse: Parser, specs: set<Option<SecuritySpec>>, hosts: seq<ResolvedHost>) {
    && (LoopbackStays(specs) ==> Avoids(parse, InLoopbackRange, hosts))
    && (PrivateStays(specs) ==> Avoids(parse, InPrivateRange, hosts))
    && (LinkLocalStays(specs) ==> Avoids(parse, InLinkLocalRange, hosts))
  }

  /**
   * Whatever else the specs of a run say and however they change: as long as none sets a flag to `false`, and
   * so without any security spec at all, no address of that flag's range is ever recorded, written or applied.
   */
  lemma BlockedUnlessOptedOut(k: Controller, events: seq<Event>)
    requires Complete(events)
    ensures var t := k.Run(events);
            && FlagsHold(k.parse, Specs(events), t.world.status.resolvedHosts)
            && (t.written.Some? ==> FlagsHold(k.parse, Specs(events), t.written.value.hosts))
            && (t.applied.Some? ==> FlagsHold(k.parse, Specs(events), t.applied.value.hosts))
  {
    hide Controller.Run, Avoids, InLoopbackRange, InPrivateRange, InLinkLocalRange;
    assert forall e | e in events && e.Reconciled? :: e.c.spec.security in Specs(events);
    if LoopbackStays(Specs(events)) {
      RangeNeverRecorded(k, events, InLoopbackRange);
    }
    if PrivateStays(Specs(events)) {
      RangeNeverRecorded(k, events, InPrivateRange);
    }
    if LinkLocalStays(Specs(events)) {
      RangeNeverRecorded(k, events, InLinkLocalRange);
    }
  }

  // ---- cluster policies ----

  function ClusterSpecs(cycles: seq<Cluster.ClusterCycle>): set<Option<SecuritySpec>> {
    set c | c in cycles :: c.cp.spec.security
  }

  lemma ClusterRangeNeverRecorded(parse: Parser, cycles: seq<Cluster.ClusterCycle>, range: Addr -> bool, n: nat)
    requires C.Complete(cycles) && n <= |cycles|
    requires forall i, a | 0 <= i < |cycles| && range(a) :: !OptedOut(cycles[i].cp.spec.security, a)
    ensures Avoids(parse, range, C.Run(parse, cycles, n).resolvedHosts)
    ensures n < |cycles| ==> Avoids(parse, range, C.ResolvedIn(parse, cycles, n))
  {
    hide OptedOut, HostAvoids, C.Run, C.ResolvedIn, Controller.RecordsOnly;
    var k := Controller(parse, "", "");
    var good := h => HostAvoids(parse, range, h);
    forall i, status | 0 <= i < |cycles| ensures k.RecordsOnly(cycles[i].PassFrom(status), good) {
      AnswersAvoid(k, cycles[i].PassFrom(status), range);
    }
    C.ClusterRunKeeps(parse, cycles, good, n);
  }

  /** The same for cluster policies, for every status and for the hosts that each cycle fans out. */
  lemma ClusterBlockedUnlessOptedOut(parse: Parser, cycles: seq<Cluster.ClusterCycle>, n: nat)
    requires C.Complete(cycles) && n <= |cycles|
    ensures FlagsHold(parse, ClusterSpecs(cycles), C.Run(parse, cycles, n).resolvedHosts)
    ensures n < |cycles| ==> FlagsHold(parse, ClusterSpecs(cycles), C.ResolvedIn(parse, cycles, n))
  {
    hide C.Run, C.ResolvedIn, Avoids, InLoopbackRange, InPrivateRange, InLinkLocalRange;
    assert forall i | 0 <= i < |cycles| :: cycles[i] in cycles && cycles[i].cp.spec.security in ClusterSpecs(cycles);
    if LoopbackStays(ClusterSpecs(cycles)) {
      ClusterRangeNeverRecorded(parse, cycles, InLoopbackRange, n);
    }
    if PrivateStays(ClusterSpecs(cycles)) {
      ClusterRangeNeverRecorded(parse, cycles, InPrivateRange, n);
    }
    if LinkLocalStays(ClusterSpecs(cycles)) {
      ClusterRangeNeverRecorded(parse, cycles, InLinkLocalRange, n);
    }
  }
}
