/** What the stored object of a namespaced policy keeps through lookup failures and through divergence freezes. */
module StoredRuns {
  import opened Strings
  import opened Policies
  import opened NetPol
  import opened ResolutionPass
  import opened Reconciler
  import opened ReconcilerRuns

  // ---- retention, as enforced ----

  /** The stored object allows every address of the last applied cycle, on the ports of the last written one. */
  lemma StoredAllowsApplied(k: Controller, events: seq<Event>, h: ResolvedHost, ip: string, t: Traffic)
    requires Complete(events) && k.Run(events).applied.Some?
    requires h in k.Run(events).applied.value.hosts && ip in h.ips && k.parse(ip) == Some(t.dest)
    ensures k.Run(events).world.stored.Some? && k.Run(events).written.Some?
    ensures PortMatches(PooledPorts(k.Run(events).written.value.egress), t) ==>
              Allows(k.parse, k.Run(events).world.stored.value.egress, t)
  {
    k.StoredIsLastWritten(events);
    var f, g := k.Run(events).written.value, k.Run(events).applied.value;
    assert Recorded(k.parse, g.hosts, t.dest);
    hide Controller.Run, Built, SameCIDRs, Allows, PortMatches;
    SameCIDRsSameRecorded(k.parse, f, g, t.dest);
    BuildDenotes(k.parse, f, t);
  }

  /** All lookups for the hostname fail from event `j` on, and nobody deletes the object after event `m`. */
  ghost predicate Outage(k: Controller, events: seq<Event>, j: nat, m: nat, hostname: string)
    requires Complete(events)
  {
    && j <= m < |events|
    && (forall i | j <= i < |events| :: events[i].Reconciled? ==> k.OnlyFails(events[i].c, hostname))
    && (forall i | m < i < |events| :: events[i].Reconciled?)
  }

  /** What an outage says of its last event, and of the run before that. */
  lemma OutagePrefix(k: Controller, events: seq<Event>, j: nat, m: nat, hostname: string)
    requires Complete(events) && Outage(k, events, j, m, hostname)
    ensures var n := |events| - 1;
            && Complete(events[..n]) && events[..n][..j] == events[..j] && events[..n][..m] == events[..m]
            && (events[n].Reconciled? ==> events[n].c.Complete() && k.OnlyFails(events[n].c, hostname))
            && (m < n ==> events[n].Reconciled? && Outage(k, events[..n], j, m, hostname))
            && forall i | j <= i < n :: events[..n][i].Reconciled? ==> k.OnlyFails(events[..n][i].c, hostname)
  {
    hide Controller.OnlyFails;
    assert events[|events| - 1] in events;
  }

  /** A cycle of the outage that applies, applies the entry recorded before the outage. */
  lemma CycleAppliesEntry(k: Controller, before: seq<Event>, c: Cycle, j: nat, hostname: string)
    requires Complete(before) && c.Complete() && j <= |before| && '*' !in hostname && k.OnlyFails(c, hostname)
    requires forall i | j <= i < |before| :: before[i].Reconciled? ==> k.OnlyFails(before[i].c, hostname)
    requires Previous(k.Run(before[..j]).world.status.resolvedHosts, hostname).Some?
    ensures Previous(k.Snap(k.Run(before).world, c).hosts, hostname)
            == Previous(k.Run(before[..j]).world.status.resolvedHosts, hostname)
  {
    hide Previous, Controller.OnlyFails, Controller.Run, Controller.Snap;
    k.OutageRetains(before, j, hostname);
    k.CycleRetains(k.Run(before).world, c, hostname);
  }

  lemma AppliedAfter(k: Controller, t: Trace, c: Cycle)
    requires c.Complete()
    ensures k.Step(t, Reconciled(c)).applied == if k.AppliesCycle(t.world, c) then Some(k.Snap(t.world, c))
            else t.applied
  {
    hide Next, NeedsWrite, Controller.AppliesCycle, Controller.Snap;
  }

  /** Once a cycle of the outage has applied, the last applied cycle holds the entry recorded before it. */
  lemma {:induction false} AppliedRetains(k: Controller, events: seq<Event>, j: nat, m: nat, hostname: string)
    requires Complete(events) && Outage(k, events, j, m, hostname) && '*' !in hostname
    requires Previous(k.Run(events[..j]).world.status.resolvedHosts, hostname).Some?
    requires events[m].Reconciled? && k.AppliesCycle(k.Run(events[..m]).world, events[m].c)
    ensures k.Run(events).applied.Some?
    ensures Previous(k.Run(events).applied.value.hosts, hostname)
            == Previous(k.Run(events[..j]).world.status.resolvedHosts, hostname)
    decreases |events|
  {
    hide Outage, Previous, Controller.OnlyFails, Controller.Step, Controller.AppliesCycle, Controller.Snap;
    var n := |events| - 1;
    OutagePrefix(k, events, j, m, hostname);
    OutageBounds(k, events, j, m, hostname);
    var before, e := events[..n], events[n];
    assert k.Run(events) == k.Step(k.Run(before), e);
    hide Controller.Run, Complete;
    AppliedAfter(k, k.Run(before), e.c);
    if k.AppliesCycle(k.Run(before).world, e.c) {
      CycleAppliesEntry(k, before, e.c, j, hostname);
    } else {
      AppliedRetains(k, before, j, m, hostname);
    }
  }

  lemma OutageBounds(k: Controller, events: seq<Event>, j: nat, m: nat, hostname: string)
    requires Complete(events) && Outage(k, events, j, m, hostname)
    ensures j <= m < |events|
  {
  }

  /**
   * So through an outage of any length the stored object goes on allowing every retained address, on the
   * ports it was last written with.
   */
  lemma StoredOutageAllows(
    k: Controller, events: seq<Event>, j: nat, m: nat, hostname: string, ip: string, t: Traffic)
    requires Complete(events) && Outage(k, events, j, m, hostname) && '*' !in hostname
    requires Previous(k.Run(events[..j]).world.status.resolvedHosts, hostname).Some?
    requires events[m].Reconciled? && k.AppliesCycle(k.Run(events[..m]).world, events[m].c)
    requires ip in Previous(k.Run(events[..j]).world.status.resolvedHosts, hostname).value.ips
    requires k.parse(ip) == Some(t.dest)
    ensures k.Run(events).world.stored.Some? && k.Run(events).written.Some?
    ensures PortMatches(PooledPorts(k.Run(events).written.value.egress), t) ==>
              Allows(k.parse, k.Run(events).world.stored.value.egress, t)
  {
    AppliedRetains(k, events, j, m, hostname);
    var hosts := k.Run(events).applied.value.hosts;
    PreviousRecorded(hosts, hostname);
    hide Controller.Run, Previous, Controller.OnlyFails, Allows, PortMatches;
    StoredAllowsApplied(k, events, Previous(hosts, hostname).value, ip, t);
  }

  // ---- freezing ----

  /**
   * With the freeze switched on in every cycle, no host that was ever written or applied was disputed when
   * it was resolved, retained hosts included: the stored object is built from undisputed hosts alone.
   */
  lemma {:induction false} FreezeKeepsDisputesOut(k: Controller, events: seq<Event>)
    requires Complete(events) && forall e | e in events :: e.Reconciled? ==>
               e.c.spec.security.Some? && e.c.spec.security.value.blockOnDivergence == Some(true)
    ensures var t := k.Run(events);
            && t.world.stored == k.BuiltObject(t.written)
            && (t.written.Some? ==> !AnyDivergence(t.written.value.hosts))
            && (t.applied.Some? ==> !AnyDivergence(t.applied.value.hosts))
  {
    k.StoredIsLastWritten(events);
    if events != [] {
      FreezeKeepsDisputesOut(k, events[..|events| - 1]);
      hide AnyDivergence, Next, NeedsWrite, Applies, Built;
    }
  }
}
