/** The cluster-scoped controller: one resolution, fanned out to every matched namespace, then garbage collection. */
module ClusterReconciler {
  import opened Strings
  import opened Addresses
  import opened TTLQueues
  import opened Policies
  import opened NetPol
  import opened Conditions
  import opened ResolutionPass
  import R = Reconciler

  datatype Key = Key(namespace: string, name: string)
  type Store = map<Key, NetworkPolicy>

  datatype ClusterPolicy = ClusterPolicy(name: string, spec: PolicySpec)

  /** API calls that fail, by namespace of the object concerned. */
  datatype Faults = Faults(get: set<string>, write: set<string>, list: bool, delete: set<string>)

  const CLUSTER_LABEL := "netsec.kunal.dev/cluster-policy"

  function SyntheticName(clusterName: string): string {
    "cfqdnnp-" + clusterName
  }

  function ObjectName(clusterName: string): string {
    OwnerName(SyntheticName(clusterName))
  }

  /** `syntheticPolicy`: the cluster policy seen as a policy of one namespace. */
  function SyntheticPolicy(cp: ClusterPolicy, namespace: string, hosts: seq<ResolvedHost>): ResolvedPolicy {
    ResolvedPolicy(SyntheticName(cp.name), namespace, cp.spec.podSelector, cp.spec.egress, hosts)
  }

  function Tagged(np: NetworkPolicy, clusterName: string): NetworkPolicy {
    np.(labels := np.labels[CLUSTER_LABEL := clusterName])
  }

  function Desired(parse: Parser, cp: ClusterPolicy, namespace: string, hosts: seq<ResolvedHost>): (np: NetworkPolicy)
    ensures np.name == ObjectName(cp.name) && np.namespace == namespace
  {
    Tagged(Built(parse, SyntheticPolicy(cp, namespace, hosts)), cp.name)
  }

  predicate LabelledBy(np: NetworkPolicy, clusterName: string) {
    CLUSTER_LABEL in np.labels && np.labels[CLUSTER_LABEL] == clusterName
  }

  // ---- the fan-out as a function on stores ----

  /** A write is wanted in this namespace: no object yet, or other CIDRs. */
  ghost predicate WantsWrite(store: Store, desired: NetworkPolicy) {
    var key := Key(desired.namespace, desired.name);
    key !in store || !SameCIDRs(store[key].egress, desired.egress)
  }

  ghost function Placed(store: Store, desired: NetworkPolicy, faults: Faults): Store {
    var key := Key(desired.namespace, desired.name);
    if desired.namespace in faults.get || !WantsWrite(store, desired) || desired.namespace in faults.write then store
    else store[key := R.Overwritten(if key in store then Some(store[key]) else None, desired)]
  }

  /** The store after the first `n` namespaces. */
  ghost function FannedOut(
    parse: Parser, store: Store, cp: ClusterPolicy, matched: seq<string>, hosts: seq<ResolvedHost>, faults: Faults,
    n: nat
  ): Store
    requires n <= |matched|
  {
    if n == 0 then store
    else Placed(FannedOut(parse, store, cp, matched, hosts, faults, n - 1), Desired(parse, cp, matched[n - 1], hosts),
        faults)
  }

  /** The objects of this cluster policy outside the matched namespaces. */
  function Stale(store: Store, clusterName: string, active: seq<string>): set<Key> {
    set k | k in store && LabelledBy(store[k], clusterName) && store[k].namespace !in active
  }

  /** The store after a reconcile that fans out: the fan-out, then a garbage collection that may stop early. */
  ghost predicate StoreStep(
    parse: Parser, before: Store, after: Store, cp: ClusterPolicy, matched: seq<string>, hosts: seq<ResolvedHost>,
    faults: Faults)
  {
    var fanned := FannedOut(parse, before, cp, matched, hosts, faults, |matched|);
    var stale := Stale(fanned, cp.name, matched);
    && after.Keys <= fanned.Keys && (forall k | k in after :: after[k] == fanned[k])
    && fanned.Keys - after.Keys <= stale
    && (!faults.list && faults.delete == {} ==> after == fanned - stale)
  }

  // ---- status ----

  datatype ClusterStatus = ClusterStatus(
    resolvedHosts: seq<ResolvedHost>,
    affectedNamespaces: seq<string>,
    conditions: seq<Condition<R.Message>>,
    observedGeneration: int)

  const EMPTY_STATUS := ClusterStatus([], [], [], 0)

  /** The inputs of one reconcile; `matched` is `None` when listing the namespaces fails. */
  datatype ClusterCycle = ClusterCycle(
    cp: ClusterPolicy, generation: int, lookups: seq<Lookup>, matched: Option<seq<string>>, now: Time,
    faults: Faults, statusFails: bool)
  {
    predicate Complete() {
      |lookups| == |cp.spec.egress|
    }

    function PassFrom(status: ClusterStatus): Pass {
      Pass(ClusterWide, cp.spec.security, status.resolvedHosts, cp.spec.egress, lookups)
    }

    predicate Freezes(hosts: seq<ResolvedHost>) {
      R.BlockOnDivergence(cp.spec.security) && R.AnyDivergence(hosts)
    }

    predicate FansOut(hosts: seq<ResolvedHost>) {
      matched.Some? && cp.spec.mode.Enforce? && !Freezes(hosts)
    }

    function Set(kind: string, status: bool, reason: string, message: R.Message, conditions: seq<Condition<R.Message>>)
      : seq<Condition<R.Message>>
    {
      Upserted(conditions, Call(kind, status, reason, message, generation, now))
    }

    function DivergenceSet(hosts: seq<ResolvedHost>, conditions: seq<Condition<R.Message>>): seq<Condition<R.Message>> {
      if R.AnyDivergence(hosts)
      then Set("ResolverDivergence", true, "ResolverDisagreement", R.DivergentHosts(hosts), conditions)
      else Set("ResolverDivergence", false, "NoDivergence", R.Text(""), conditions)
    }

    function ReadySet(
      frozen: bool, problems: seq<Problem>, conditions: seq<Condition<R.Message>>): seq<Condition<R.Message>> {
      var message := R.Text("resolver disagreement detected; NetworkPolicy fan-out skipped");
      if frozen then
        Set("Degraded", true, "DivergenceBlocked", message,
            Set("Ready", false, "DivergenceBlocked", message, conditions))
      else if problems != [] then Set("Ready", false, "ResolutionDegraded", R.ProblemList(problems), conditions)
      else Set("Ready", true, "Reconciled", R.Text("NetworkPolicies synced to all matched namespaces"), conditions)
    }

    ghost function NextStatus(parse: Parser, status: ClusterStatus): ClusterStatus
      requires Complete() && matched.Some?
    {
      var hosts := PassFrom(status).Resolved(parse);
      var frozen := cp.spec.mode.Enforce? && Freezes(hosts);
      ClusterStatus(hosts, matched.value,
                    ReadySet(frozen, PassFrom(status).Problems(parse, |cp.spec.egress|),
                        DivergenceSet(hosts, status.conditions)),
                    generation)
    }
  }

  /** The store after a reconcile that starts from this status. */
  ghost predicate StoreAfter(parse: Parser, before: Store, status: ClusterStatus, c: ClusterCycle, after: Store)
    requires c.Complete()
  {
    var hosts := c.PassFrom(status).Resolved(parse);
    if c.FansOut(hosts) then StoreStep(parse, before, after, c.cp, c.matched.value, hosts, c.faults)
        else after == before
  }

  /** The status after it; a failed listing or status write leaves it alone. */
  ghost function StatusAfter(parse: Parser, status: ClusterStatus, c: ClusterCycle): ClusterStatus
    requires c.Complete()
  {
    if c.matched.None? || c.statusFails then status else c.NextStatus(parse, status)
  }

  function StatusOf(statuses: map<string, ClusterStatus>, name: string): ClusterStatus {
    if name in statuses then statuses[name] else EMPTY_STATUS
  }

  class ClusterController {
    const parse: Parser
    var store: Store
    var statuses: map<string, ClusterStatus>

    constructor (parse: Parser, store: Store)
      ensures this.parse == parse && this.store == store && statuses == map[]
    {
      this.parse, this.store, this.statuses := parse, store, map[];
    }

    method Reconcile(c: ClusterCycle) returns (r: R.Outcome)
      requires c.Complete()
      modifies this
      ensures StoreAfter(parse, old(store), StatusOf(old(statuses), c.cp.name), c, store)
      ensures StatusOf(statuses, c.cp.name) == StatusAfter(parse, StatusOf(old(statuses), c.cp.name), c)
      ensures statuses == if c.matched.None? || c.statusFails then old(statuses)
                          else old(statuses)[c.cp.name := c.NextStatus(parse, StatusOf(old(statuses), c.cp.name))]
      ensures r.Failure? <==> c.matched.None? || c.statusFails
      ensures r.Requeue? ==> R.IsNextRequeue(c.cp.spec.resolutionTTLOverride,
                c.PassFrom(StatusOf(old(statuses), c.cp.name)).Deadlines(parse, |c.cp.spec.egress|), c.now, r.after)
      ensures r.Requeue? && c.cp.spec.resolutionTTLOverride.Some? ==>
                R.Overrides(c.cp.spec.resolutionTTLOverride.value, r.after)
      ensures c.cp.spec.mode.Audit? || c.matched.None? ==> store == old(store)
      ensures && c.cp.spec.security.Some? && c.cp.spec.security.value.blockOnDivergence == Some(true)
              && (exists h | h in c.PassFrom(StatusOf(old(statuses), c.cp.name)).Resolved(parse) ::
                   h.security.resolverDivergence > 0)
              ==> store == old(store)
    {
      hide TTLQueue.Valid, Upserted, IsMinDelay, StoreStep, FannedOut, RuleEffect, Pass.Resolved, Pass.Problems,
        Pass.Deadlines, ClusterCycle.ReadySet, ClusterCycle.DivergenceSet;
      var status := StatusOf(statuses, c.cp.name);
      var ttlQueue := new TTLQueue();
      var resolved, problems := ResolveEgress(parse, c.PassFrom(status), ttlQueue);
      if c.matched.None? {
        return R.Failure;
      }
      var frozen := c.cp.spec.mode.Enforce? && c.Freezes(resolved);
      if c.cp.spec.mode.Enforce? && !frozen {
        FanOutAndCollect(c.cp, c.matched.value, resolved, c.faults);
      }
      if c.statusFails {
        return R.Failure;
      }
      var after := ttlQueue.MinDelay(DEFAULT_POLL_INTERVAL, c.now);
      if c.cp.spec.resolutionTTLOverride.Some? {
        after := R.Clamp(c.cp.spec.resolutionTTLOverride.value * SECOND, TTL_FLOOR, TTL_CEILING);
      }
      var next := UpdatedStatus(c, status, resolved, problems, frozen);
      statuses := statuses[c.cp.name := next];
      r := R.Requeue(after);
    }

    /** `updateClusterStatus`: condition upserts on the working copy. */
    static method UpdatedStatus(
      c: ClusterCycle, status: ClusterStatus, resolved: seq<ResolvedHost>, problems: seq<Problem>, frozen: bool
    ) returns (next: ClusterStatus)
      requires c.matched.Some?
      ensures next == ClusterStatus(resolved, c.matched.value,
                c.ReadySet(frozen, problems, c.DivergenceSet(resolved, status.conditions)), c.generation)
    {
      var divergent := R.AnyDivergence(resolved);
      var conditions := SetCondition(status.conditions,
        if divergent
        then Call("ResolverDivergence", true, "ResolverDisagreement", R.DivergentHosts(resolved), c.generation, c.now)
        else Call("ResolverDivergence", false, "NoDivergence", R.Text(""), c.generation, c.now));
      var message := R.Text("resolver disagreement detected; NetworkPolicy fan-out skipped");
      if frozen {
        conditions := SetCondition(conditions, Call("Ready", false, "DivergenceBlocked", message, c.generation, c.now));
        conditions := SetCondition(conditions,
            Call("Degraded", true, "DivergenceBlocked", message, c.generation, c.now));
      } else if |problems| > 0 {
        conditions := SetCondition(conditions,
          Call("Ready", false, "ResolutionDegraded", R.ProblemList(problems), c.generation, c.now));
      } else {
        conditions := SetCondition(conditions,
          Call("Ready", true, "Reconciled", R.Text("NetworkPolicies synced to all matched namespaces"), c.generation,
              c.now));
      }
      next := ClusterStatus(resolved, c.matched.value, conditions, c.generation);
    }

    method FanOutAndCollect(cp: ClusterPolicy, matched: seq<string>, hosts: seq<ResolvedHost>, faults: Faults)
      modifies this`store
      ensures StoreStep(parse, old(store), store, cp, matched, hosts, faults)
    {
      FanOut(cp, matched, hosts, faults);
      var _ := GarbageCollect(cp.name, matched, faults);
    }

    /** Creates or updates one object per matched namespace; a failed call only skips its namespace. */
    method FanOut(cp: ClusterPolicy, matched: seq<string>, hosts: seq<ResolvedHost>, faults: Faults)
      modifies this`store
      ensures store == FannedOut(parse, old(store), cp, matched, hosts, faults, |matched|)
    {
      hide SameCIDRs, Built;
      for i := 0 to |matched|
        invariant store == FannedOut(parse, old(store), cp, matched, hosts, faults, i)
      {
        var ns := matched[i];
        var built := Build(parse, SyntheticPolicy(cp, ns, hosts));
        var desired := Tagged(built, cp.name);
        var key := Key(desired.namespace, desired.name);
        if ns in faults.get {
          continue;
        }
        if key !in store {
          if ns !in faults.write {
            store := store[key := desired];
          }
        } else {
          var existing := store[key];
          var equal := IpSetsEqual(existing.egress, desired.egress);
          if !equal && ns !in faults.write {
            store := store[key := existing.(
              labels := desired.labels, podSelector := desired.podSelector, egress := desired.egress)];
          }
        }
      }
    }

    /** Deletes labelled objects outside the active namespaces, in any order; stops at the first failure. */
    method GarbageCollect(clusterName: string, active: seq<string>, faults: Faults) returns (ok: bool)
      modifies this`store
      ensures store.Keys <= old(store).Keys && forall k | k in store :: store[k] == old(store)[k]
      ensures old(store).Keys - store.Keys <= Stale(old(store), clusterName, active)
      ensures ok ==> store == old(store) - Stale(old(store), clusterName, active)
      ensures !faults.list && faults.delete == {} ==> ok
    {
      if faults.list {
        return false;
      }
      var todo := set k | k in store && LabelledBy(store[k], clusterName);
      ghost var stale := Stale(store, clusterName, active);
      ghost var done: set<Key> := {};
      while todo != {}
        invariant todo <= old(store).Keys
        invariant stale == (stale * done) + (stale * todo) && done !! todo
        invariant store == old(store) - (stale * done)
        invariant forall k | k in todo :: k in store && store[k] == old(store)[k]
        decreases todo
      {
        var k :| k in todo;
        todo, done := todo - {k}, done + {k};
        if store[k].namespace !in active {
          if store[k].namespace in faults.delete {
            return false;
          }
          store := store - {k};
        }
      }
      ok := true;
      assert stale * done == stale;
    }
  }
}
