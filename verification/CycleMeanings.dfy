/** What a reconcile does to the generated objects, read off the mode, the freeze flag and the answers of the cycle. */
module CycleMeanings {
  import opened Strings
  import opened Addresses
  import opened IPFilter
  import opened TTLQueues
  import opened Policies
  import opened NetPol
  import opened ResolutionPass
  import opened RuleMeanings
  import opened Reconciler
  import opened ReconcilerRuns
  import opened Cluster = ClusterReconciler
  import ClusterRuns
  import Conditions

  // ---- audit mode ----

  /** An audit cycle writes nothing. */
  lemma AuditWritesNothing(k: Controller, t: Trace, c: Cycle)
    requires c.Complete() && c.spec.mode.Audit?
    ensures var next := k.Step(t, Reconciled(c));
            next.world.stored == t.world.stored && next.written == t.written && next.applied == t.applied
  {
    hide Snapshot, Built, Frozen, NextStatus, Applies;
  }

  /** Through any run of audit cycles the stored object stays as it is, unless somebody deletes it. */
  lemma {:induction false} AuditKeepsStored(k: Controller, events: seq<Event>, j: nat)
    requires Complete(events) && j <= |events|
    requires forall i | j <= i < |events| :: events[i].Reconciled? ==> events[i].c.spec.mode.Audit?
    ensures k.Run(events).world.stored ==
              if exists i | j <= i < |events| :: events[i].ObjectDeleted? then None
              else k.Run(events[..j]).world.stored
    decreases |events|
  {
    hide Controller.Step;
    if j == |events| {
      assert events[..j] == events;
    } else {
      var n := |events| - 1;
      assert events[..n][..j] == events[..j];
      AuditKeepsStored(k, events[..n], j);
      assert k.Run(events) == k.Step(k.Run(events[..n]), events[n]);
      hide Controller.Run;
      assert events[n] in events;
      if events[n].Reconciled? {
        AuditWritesNothing(k, k.Run(events[..n]), events[n].c);
        assert forall i | j <= i < n :: events[..n][i] == events[i];
      } else {
        DeletedStep(k, k.Run(events[..n]));
      }
    }
  }

  lemma DeletedStep(k: Controller, t: Trace)
    ensures k.Step(t, ObjectDeleted).world.stored == None
  {
  }

  /** A policy that was only ever audited has no generated object. */
  lemma AuditOnlyStoresNothing(k: Controller, events: seq<Event>)
    requires Complete(events) && forall e | e in events :: e.Reconciled? ==> e.c.spec.mode.Audit?
    ensures k.Run(events).world.stored == None
  {
    AuditKeepsStored(k, events, 0);
    assert events[..0] == [];
  }

  // ---- the divergence freeze ----

  predicate FreezeFlag(sec: Option<SecuritySpec>) {
    sec.Some? && sec.value.blockOnDivergence == Some(true)
  }

  /** Rule `i` records a disputed host: its answer is disputed, or its lookup failed and the host it keeps is. */
  ghost predicate RecordsDispute(parse: Parser, p: Pass, i: nat)
    requires p.Complete() && i < |p.egress|
  {
    p.At(parse, i).host.Some? &&
    match p.lookups[i].outcome
    case Answered(res) => res.resolverDivergence > 0
    case Failed(_) => exists h | h in p.prev && FirstNamed(p.prev, p.egress[i].pattern, h) ::
        h.security.resolverDivergence > 0
  }

  lemma DisputeOfRule(parse: Parser, p: Pass, i: nat)
    requires p.Complete() && i < |p.egress|
    ensures RecordsDispute(parse, p, i) <==>
              p.At(parse, i).host.Some? && p.At(parse, i).host.value.security.resolverDivergence > 0
  {
    if p.At(parse, i).host.Some? {
      var pattern, look := p.egress[i].pattern, p.lookups[i];
      if look.outcome.Answered? {
        AnswerRecords(parse, p.scope, p.sec, p.prev, pattern, look);
      } else {
        FailureKeeps(parse, p.scope, p.sec, p.prev, pattern, look);
        hide RuleEffect;
        var h := p.At(parse, i).host.value;
        assert FirstNamed(p.prev, pattern, h) && h in p.prev;
        forall g | FirstNamed(p.prev, pattern, g) ensures g == h {
        }
      }
    }
  }

  /** A pass records a disputed host exactly when some rule does. */
  lemma DisputeMeaning(parse: Parser, p: Pass)
    requires p.Complete()
    ensures (exists h | h in p.Resolved(parse) :: h.security.resolverDivergence > 0)
            <==> exists i | 0 <= i < |p.egress| :: RecordsDispute(parse, p, i)
  {
    forall h { HostsOfRules(parse, p, |p.egress|, h); }
    forall i | 0 <= i < |p.egress| { DisputeOfRule(parse, p, i); }
    hide RuleEffect, Pass.Hosts, Pass.At, RecordsDispute;
    if i :| 0 <= i < |p.egress| && RecordsDispute(parse, p, i) {
      assert p.At(parse, i).host.value in p.Resolved(parse);
    }
  }

  /** A cycle is frozen exactly when the flag is set and some rule records a disputed host. */
  lemma FrozenIff(k: Controller, w: World, c: Cycle)
    requires c.Complete()
    ensures Frozen(k.parse, w.status, c) <==>
              && FreezeFlag(c.spec.security)
              && exists i | 0 <= i < |c.spec.egress| :: RecordsDispute(k.parse, PassOf(c, w.status), i)
  {
    DisputeMeaning(k.parse, PassOf(c, w.status));
    hide Pass.Resolved, RecordsDispute;
  }

  /** With the flag set, a disputed answer that is recorded leaves the stored object as it is. */
  lemma DisputeLeavesStored(k: Controller, t: Trace, c: Cycle, i: nat)
    requires c.Complete() && i < |c.lookups| && FreezeFlag(c.spec.security)
    requires c.lookups[i].outcome.Answered? && c.lookups[i].outcome.res.resolverDivergence > 0
    requires PassOf(c, t.world.status).At(k.parse, i).host.Some?
    ensures var next := k.Step(t, Reconciled(c));
            next.world.stored == t.world.stored && next.written == t.written && next.applied == t.applied
  {
    assert RecordsDispute(k.parse, PassOf(c, t.world.status), i);
    FrozenIff(k, t.world, c);
    hide Snapshot, Built, Frozen, NextStatus, Applies, RuleEffect, RecordsDispute;
  }

  /** An answer with an address that neither filter holds back is recorded. */
  lemma SurvivorIsRecorded(parse: Parser, p: Pass, i: nat, ip: string)
    requires p.Complete() && i < |p.egress| && p.lookups[i].outcome.Answered?
    requires p.scope.Namespaced? ==> '*' !in p.egress[i].pattern
    requires var res := p.lookups[i].outcome.res;
             ip in res.ips && Backed(p.sec, res, ip) && OutsideRanges(parse, p.sec, ip)
    ensures p.At(parse, i).host.Some? && ip in p.At(parse, i).host.value.ips
  {
    AnswerFailsClosed(parse, p.scope, p.sec, p.prev, p.egress[i].pattern, p.lookups[i]);
    hide RuleEffect, Backed, OutsideRanges;
  }

  // ---- enforcing ----

  /** An enforcing cycle that is not frozen and meets no failing call stores an object for the hosts it resolved. */
  lemma EnforceStores(k: Controller, t: Trace, c: Cycle)
    requires c.Complete() && c.spec.mode.Enforce? && !c.faults.get && !c.faults.write
    requires !FreezeFlag(c.spec.security)
             || forall i | 0 <= i < |c.spec.egress| :: !RecordsDispute(k.parse, PassOf(c, t.world.status), i)
    ensures var next, hosts := k.Step(t, Reconciled(c)), PassOf(c, t.world.status).Resolved(k.parse);
            && next.applied == Some(k.Snap(t.world, c))
            && next.world.stored.Some?
            && multiset(AllPeers(next.world.stored.value.egress)) == multiset(Peers(k.parse, hosts))
  {
    FrozenIff(k, t.world, c);
    BuiltPeers(k.parse, k.Snap(t.world, c));
    hide Built, Frozen, NextStatus, Peers, Pass.Resolved, RecordsDispute;
  }

  /** The status of a cycle whose status update succeeds, field by field. */
  lemma StatusFields(k: Controller, w: World, c: Cycle)
    requires c.Complete()
    ensures var next := NextStatus(k.parse, k.name, w.status, c);
            && next.resolvedHosts == PassOf(c, w.status).Resolved(k.parse)
            && next.observedGeneration == c.generation
            && next.generatedNetworkPolicy ==
                 if c.spec.mode.Audit? then ""
                 else if Frozen(k.parse, w.status, c) then w.status.generatedNetworkPolicy
                 else "fqdnnp-" + k.name
  {
    hide Frozen, Conditions.Upserted, Pass.Resolved, Pass.Problems;
  }

  // ---- the delay until the next cycle ----

  /**
   * Without an override the next cycle comes no later than any tracked deadline that is a minute or more away,
   * never sooner than after a minute, and at a tracked deadline unless exactly a minute from now.
   */
  lemma RequeueMeaning(parse: Parser, c: Cycle, status: Status, after: int)
    requires c.Complete() && c.spec.resolutionTTLOverride.None?
    requires IsNextRequeue(c.spec.resolutionTTLOverride, PassOf(c, status).Deadlines(parse, |c.spec.egress|),
                           c.now, after)
    ensures after >= 60_000_000_000
    ensures var p := PassOf(c, status);
            forall h, i: nat | SetsLast(parse, p, |p.egress|, i, h) ::
              p.At(parse, i).deadline.value >= c.now + 60_000_000_000 && p.At(parse, i).deadline.value > 0
              ==> c.now + after <= p.At(parse, i).deadline.value
    ensures after > 60_000_000_000 ==>
              exists h, i: nat :: SetsLast(parse, PassOf(c, status), |c.spec.egress|, i, h)
                                  && PassOf(c, status).At(parse, i).deadline == Some(c.now + after)
  {
    hide RuleEffect, Pass.At, Pass.Deadlines, SetsLast, IsMinDelay;
    var p := PassOf(c, status);
    DelayMeaning(p.Deadlines(parse, |p.egress|), c.now, after);
    forall h, i: nat | SetsLast(parse, p, |p.egress|, i, h)
      ensures i < |p.egress| && h in p.Deadlines(parse, |p.egress|)
              && p.At(parse, i).deadline == Some(p.Deadlines(parse, |p.egress|)[h])
    {
      DeadlinesOfRules(parse, p, |p.egress|, h);
    }
    if after > 60_000_000_000 {
      var h :| h in p.Deadlines(parse, |p.egress|) && p.Deadlines(parse, |p.egress|)[h] == c.now + after;
      DeadlinesOfRules(parse, p, |p.egress|, h);
      var i: nat :| SetsLast(parse, p, |p.egress|, i, h);
      assert p.At(parse, i).deadline == Some(c.now + after);
    }
  }

  lemma DelayMeaning(m: map<string, Time>, now: Time, after: int)
    requires IsMinDelay(m, now, DEFAULT_POLL_INTERVAL, after)
    ensures after >= 60_000_000_000
    ensures forall h | h in m && m[h] >= now + 60_000_000_000 && m[h] > 0 :: now + after <= m[h]
    ensures after > 60_000_000_000 ==> exists h :: h in m && m[h] == now + after
  {
  }

  /** With an override only the override counts. */
  lemma OverrideMeaning(deadlines: map<string, Time>, s: int, now: Time, after: int)
    ensures IsNextRequeue(Some(s), deadlines, now, after) <==> Overrides(s, after)
  {
  }

  // ---- cluster policies ----

  /** An audit cycle, and one that cannot list the namespaces, leaves every object in the cluster alone. */
  lemma ClusterAuditWritesNothing(parse: Parser, before: Store, status: ClusterStatus, c: ClusterCycle, after: Store)
    requires c.Complete() && StoreAfter(parse, before, status, c, after)
    requires c.cp.spec.mode.Audit? || c.matched.None?
    ensures after == before
  {
    hide Pass.Resolved, StoreStep;
  }

  /** So does a run of audit cycles of any cluster policies; from an empty store nothing is ever created. */
  lemma {:induction false} ClusterAuditKeepsStore(
    parse: Parser, stores: seq<Store>, statuses: seq<ClusterStatus>, cycles: seq<ClusterCycle>, n: nat)
    requires |stores| == |cycles| + 1 && |statuses| == |cycles| && n <= |cycles|
    requires forall i | 0 <= i < |cycles| :: cycles[i].Complete() && cycles[i].cp.spec.mode.Audit?
    requires forall i | 0 <= i < |cycles| :: StoreAfter(parse, stores[i], statuses[i], cycles[i], stores[i + 1])
    ensures stores[n] == stores[0]
  {
    hide StoreAfter;
    if n > 0 {
      ClusterAuditKeepsStore(parse, stores, statuses, cycles, n - 1);
      ClusterAuditWritesNothing(parse, stores[n - 1], statuses[n - 1], cycles[n - 1], stores[n]);
    }
  }

  /** With the flag set, a disputed answer that is recorded keeps the whole cluster store as it is. */
  lemma ClusterDisputeLeavesStore(
    parse: Parser, before: Store, status: ClusterStatus, c: ClusterCycle, after: Store, i: nat)
    requires c.Complete() && StoreAfter(parse, before, status, c, after) && FreezeFlag(c.cp.spec.security)
    requires i < |c.lookups| && c.lookups[i].outcome.Answered? && c.lookups[i].outcome.res.resolverDivergence > 0
    requires c.PassFrom(status).At(parse, i).host.Some?
    ensures after == before
  {
    assert RecordsDispute(parse, c.PassFrom(status), i);
    DisputeMeaning(parse, c.PassFrom(status));
    hide Pass.Resolved, StoreStep, RecordsDispute, RuleEffect;
  }

  /** An enforcing cycle that is not frozen and meets no failing call converges on the hosts it resolved. */
  lemma ClusterEnforceConverges(parse: Parser, before: Store, status: ClusterStatus, c: ClusterCycle, after: Store)
    requires c.Complete() && StoreAfter(parse, before, status, c, after) && ClusterRuns.Owned(before)
    requires c.cp.spec.mode.Enforce? && c.matched.Some? && c.faults == ClusterRuns.NO_FAULTS
    requires !FreezeFlag(c.cp.spec.security)
             || forall i | 0 <= i < |c.cp.spec.egress| :: !RecordsDispute(parse, c.PassFrom(status), i)
    ensures ClusterRuns.Converged(parse, after, c.cp, c.matched.value, c.PassFrom(status).Resolved(parse))
  {
    DisputeMeaning(parse, c.PassFrom(status));
    hide Pass.Resolved, StoreStep, RecordsDispute, ClusterRuns.Converged, ClusterRuns.Owned;
    ClusterRuns.OneReconcileConverges(parse, before, after, c.cp, c.matched.value, c.PassFrom(status).Resolved(parse));
  }

  /** The status of a cluster cycle that lands, beside its conditions. */
  lemma ClusterStatusFields(parse: Parser, status: ClusterStatus, c: ClusterCycle)
    requires c.Complete() && c.matched.Some? && !c.statusFails
    ensures var next := StatusAfter(parse, status, c);
            && next.resolvedHosts == c.PassFrom(status).Resolved(parse)
            && next.affectedNamespaces == c.matched.value && next.observedGeneration == c.generation
  {
    hide Pass.Resolved, Pass.Problems, ClusterCycle.ReadySet, ClusterCycle.DivergenceSet;
  }
}
