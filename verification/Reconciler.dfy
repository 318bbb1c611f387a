/** The namespaced controller: one policy's status and generated object in the API server, and one reconcile. */
module Reconciler {
  import opened Strings
  import opened Addresses
  import opened IPFilter
  import opened TTLQueues
  import opened Policies
  import opened NetPol
  import opened Conditions
  import opened ResolutionPass

  datatype Message = Text(text: string) | ProblemList(problems: seq<Problem>) | DivergentHosts(hosts: seq<ResolvedHost>)

  datatype Status = Status(
    resolvedHosts: seq<ResolvedHost>,
    generatedNetworkPolicy: string,
    conditions: seq<Condition<Message>>,
    observedGeneration: int)

  /** Which API calls fail in a reconcile. */
  datatype Faults = Faults(get: bool, write: bool, statusUpdate: bool)

  /** The inputs of one reconcile: the spec then in force, one lookup per rule, the clock, the faults. */
  datatype Cycle = Cycle(
    generation: int, spec: PolicySpec, lookups: seq<Lookup>, now: Time, faults: Faults)
  {
    predicate Complete() {
      |lookups| == |spec.egress|
    }
  }

  datatype Outcome = Requeue(after: int) | Failure

  /** What the API server holds for one policy. */
  datatype World = World(status: Status, stored: Option<NetworkPolicy>)

  const EMPTY_STATUS := Status([], "", [], 0)

  // ---- resolver_divergence.go ----

  predicate BlockOnDivergence(sec: Option<SecuritySpec>) {
    sec.Some? && sec.value.blockOnDivergence == Some(true)
  }

  predicate AnyDivergence(hosts: seq<ResolvedHost>) {
    exists h | h in hosts :: h.security.resolverDivergence > 0
  }

  function DivergenceCall(c: Cycle, hosts: seq<ResolvedHost>): Call<Message> {
    if AnyDivergence(hosts)
    then Call("ResolverDivergence", true, "ResolverDisagreement", DivergentHosts(hosts), c.generation, c.now)
    else Call("ResolverDivergence", false, "NoDivergence", Text(""), c.generation, c.now)
  }

  // ---- requeue ----

  function Clamp(d: int, floor: int, ceiling: int): int {
    if d < floor then floor else if d > ceiling then ceiling else d
  }

  /** An override of `s` seconds is taken as it is from five seconds to five minutes, else the nearer of the two. */
  predicate Overrides(s: int, after: int) {
    && (5 <= s <= 300 ==> after == s * 1_000_000_000)
    && (s < 5 ==> after == 5_000_000_000)
    && (s > 300 ==> after == 300_000_000_000)
  }

  /** An override wins; otherwise the earliest tracked deadline, at least the default poll interval away. */
  ghost predicate IsNextRequeue(ttlOverride: Option<int>, deadlines: map<string, Time>, now: Time, after: int) {
    if ttlOverride.Some? then after == Clamp(ttlOverride.value * SECOND, TTL_FLOOR, TTL_CEILING)
    else IsMinDelay(deadlines, now, DEFAULT_POLL_INTERVAL, after)
  }

  // ---- one reconcile, as a function on worlds ----

  function PassOf(c: Cycle, status: Status): Pass {
    Pass(Namespaced, c.spec.security, status.resolvedHosts, c.spec.egress, c.lookups)
  }

  /** The policy that an Enforce cycle hands to `Build`. */
  ghost function Snapshot(parse: Parser, name: string, namespace: string, status: Status, c: Cycle): ResolvedPolicy
    requires c.Complete()
  {
    ResolvedPolicy(name, namespace, c.spec.podSelector, c.spec.egress, PassOf(c, status).Resolved(parse))
  }

  /** Divergence freezes the generated object for this cycle. */
  ghost predicate Frozen(parse: Parser, status: Status, c: Cycle)
    requires c.Complete()
  {
    BlockOnDivergence(c.spec.security) && AnyDivergence(PassOf(c, status).Resolved(parse))
  }

  ghost predicate Enforces(parse: Parser, status: Status, c: Cycle)
    requires c.Complete()
  {
    c.spec.mode.Enforce? && !Frozen(parse, status, c)
  }

  /** `applyNetworkPolicy` wants to write: nothing is stored, or the CIDRs changed. */
  ghost predicate NeedsWrite(stored: Option<NetworkPolicy>, desired: NetworkPolicy) {
    stored.Some? ==> !SameCIDRs(stored.value.egress, desired.egress)
  }

  ghost predicate Applies(stored: Option<NetworkPolicy>, desired: NetworkPolicy, faults: Faults) {
    !faults.get && (NeedsWrite(stored, desired) ==> !faults.write)
  }

  /** The stored object takes over spec and labels; its identity stays. */
  function Overwritten(stored: Option<NetworkPolicy>, desired: NetworkPolicy): NetworkPolicy {
    if stored.None? then desired
    else stored.value.(labels := desired.labels, podSelector := desired.podSelector, egress := desired.egress)
  }

  ghost function AfterApply(
    stored: Option<NetworkPolicy>, desired: NetworkPolicy, faults: Faults): Option<NetworkPolicy> {
    if Applies(stored, desired, faults) && NeedsWrite(stored, desired) then Some(Overwritten(stored, desired))
        else stored
  }

  function Set(status: Status, call: Call<Message>): Status {
    status.(conditions := Upserted(status.conditions, call))
  }

  function AuditCall(c: Cycle): Call<Message> {
    Call("Ready", true, "AuditMode", Text("Audit mode active; no NetworkPolicy generated"), c.generation, c.now)
  }

  function FrozenCall(c: Cycle, kind: string, status: bool): Call<Message> {
    Call(kind, status, "DivergenceBlocked", Text("resolver disagreement detected; NetworkPolicy update skipped"),
         c.generation, c.now)
  }

  function ReadyCall(c: Cycle, problems: seq<Problem>): Call<Message> {
    if problems != [] then Call("Ready", false, "ResolutionDegraded", ProblemList(problems), c.generation, c.now)
    else Call("Ready", true, "Reconciled", Text("NetworkPolicy generated from resolved hosts"), c.generation, c.now)
  }

  function DegradedCall(c: Cycle, problems: seq<Problem>): Call<Message> {
    if problems != [] then Call("Degraded", true, "ResolutionErrors", ProblemList(problems), c.generation, c.now)
    else Call("Degraded", false, "OK", Text(""), c.generation, c.now)
  }

  /** The status the reconcile works out, before the status update is attempted. */
  ghost function NextStatus(parse: Parser, name: string, status: Status, c: Cycle): Status
    requires c.Complete()
  {
    var pass := PassOf(c, status);
    var hosts := pass.Resolved(parse);
    var problems := pass.Problems(parse, |c.spec.egress|);
    var s := Set(status.(resolvedHosts := hosts, observedGeneration := c.generation), DivergenceCall(c, hosts));
    if c.spec.mode.Audit? then Set(s.(generatedNetworkPolicy := ""), AuditCall(c))
    else if Frozen(parse, status, c) then Set(Set(s, FrozenCall(c, "Ready", false)), FrozenCall(c, "Degraded", true))
    else Set(Set(s.(generatedNetworkPolicy := OwnerName(name)), ReadyCall(c, problems)), DegradedCall(c, problems))
  }

  ghost predicate Succeeds(parse: Parser, name: string, namespace: string, w: World, c: Cycle)
    requires c.Complete()
  {
    var desired := Built(parse, Snapshot(parse, name, namespace, w.status, c));
    !c.faults.statusUpdate && (Enforces(parse, w.status, c) ==> Applies(w.stored, desired, c.faults))
  }

  ghost function NextStored(parse: Parser, name: string, namespace: string, w: World, c: Cycle): Option<NetworkPolicy>
    requires c.Complete()
  {
    if Enforces(parse, w.status, c)
    then AfterApply(w.stored, Built(parse, Snapshot(parse, name, namespace, w.status, c)), c.faults)
    else w.stored
  }

  /** One reconcile. A failed call may leave the object written and the status not. */
  ghost function Next(parse: Parser, name: string, namespace: string, w: World, c: Cycle): World
    requires c.Complete()
  {
    World(if Succeeds(parse, name, namespace, w, c) then NextStatus(parse, name, w.status, c) else w.status,
          NextStored(parse, name, namespace, w, c))
  }

  function EnforcedStatus(c: Cycle, working: Status, name: string, problems: seq<Problem>): Status {
    Set(Set(working.(generatedNetworkPolicy := OwnerName(name), observedGeneration := c.generation),
        ReadyCall(c, problems)),
        DegradedCall(c, problems))
  }

  class NamespacedReconciler {
    const parse: Parser
    const name: string
    const namespace: string
    var status: Status
    var stored: Option<NetworkPolicy>

    constructor (parse: Parser, name: string, namespace: string)
      ensures this.parse == parse && this.name == name && this.namespace == namespace
      ensures Contents() == World(EMPTY_STATUS, None)
    {
      this.parse, this.name, this.namespace := parse, name, namespace;
      this.status, this.stored := EMPTY_STATUS, None;
    }

    function Contents(): World
      reads this
    {
      World(status, stored)
    }

    method Reconcile(c: Cycle) returns (r: Outcome)
      requires c.Complete()
      modifies this
      ensures Contents() == Next(parse, name, namespace, old(Contents()), c)
      ensures r.Requeue? <==> Succeeds(parse, name, namespace, old(Contents()), c)
      ensures r.Requeue? ==> IsNextRequeue(c.spec.resolutionTTLOverride,
                PassOf(c, old(status)).Deadlines(parse, |c.spec.egress|), c.now, r.after)
      ensures r.Requeue? && c.spec.resolutionTTLOverride.Some? ==>
                Overrides(c.spec.resolutionTTLOverride.value, r.after)
      ensures c.spec.mode.Audit? ==> stored == old(stored)
      ensures && c.spec.security.Some? && c.spec.security.value.blockOnDivergence == Some(true)
              && (exists h | h in PassOf(c, old(status)).Resolved(parse) :: h.security.resolverDivergence > 0)
              ==> stored == old(stored)
    {
      hide TTLQueue.Valid, Upserted, Built, IsNextRequeue, Applies, AfterApply, ReadyCall, DegradedCall, DivergenceCall,
        RuleEffect, Pass.Resolved, Pass.Problems, Pass.Deadlines;
      var ttlQueue := new TTLQueue();
      var resolved, problems := ResolveEgress(parse, PassOf(c, status), ttlQueue);
      var fp := status.(resolvedHosts := resolved);
      fp := Upsert(fp, DivergenceCall(c, resolved));

      if c.spec.mode.Audit? {
        fp := fp.(generatedNetworkPolicy := "", observedGeneration := c.generation);
        fp := Upsert(fp, AuditCall(c));
        r := Finish(c, fp, ttlQueue);
        return;
      }

      if BlockOnDivergence(c.spec.security) && AnyDivergence(resolved) {
        fp := fp.(observedGeneration := c.generation);
        fp := Upsert(fp, FrozenCall(c, "Ready", false));
        fp := Upsert(fp, FrozenCall(c, "Degraded", true));
        r := Finish(c, fp, ttlQueue);
        return;
      }

      r := EnforceCycle(c, fp, resolved, problems, ttlQueue);
    }

    /** The enforcing end of a reconcile: build, apply, and record the outcome. */
    method EnforceCycle(
      c: Cycle, working: Status, resolved: seq<ResolvedHost>, problems: seq<Problem>, ttlQueue: TTLQueue)
      returns (r: Outcome)
      requires ttlQueue.Valid()
      modifies this
      ensures var desired := Built(parse, ResolvedPolicy(name, namespace, c.spec.podSelector, c.spec.egress, resolved));
              && stored == AfterApply(old(stored), desired, c.faults)
              && (r.Requeue? <==> Applies(old(stored), desired, c.faults) && !c.faults.statusUpdate)
      ensures status == if r.Requeue? then EnforcedStatus(c, working, name, problems) else old(status)
      ensures r.Requeue? ==> IsNextRequeue(c.spec.resolutionTTLOverride, ttlQueue.deadlines, c.now, r.after)
      ensures r.Requeue? && c.spec.resolutionTTLOverride.Some? ==>
                Overrides(c.spec.resolutionTTLOverride.value, r.after)
    {
      hide TTLQueue.Valid, Upserted, IsNextRequeue, Applies, AfterApply, ReadyCall, DegradedCall;
      var desired := Build(parse, ResolvedPolicy(name, namespace, c.spec.podSelector, c.spec.egress, resolved));
      hide Built;
      var ok := ApplyNetworkPolicy(desired, c.faults);
      if !ok {
        return Failure;
      }
      var fp := working.(generatedNetworkPolicy := desired.name, observedGeneration := c.generation);
      fp := Upsert(fp, ReadyCall(c, problems));
      fp := Upsert(fp, DegradedCall(c, problems));
      r := Finish(c, fp, ttlQueue);
    }

    /** `setCondition` on the working copy of the object. */
    static method Upsert(fp: Status, call: Call<Message>) returns (updated: Status)
      ensures updated == Set(fp, call)
    {
      var conditions := SetCondition(fp.conditions, call);
      updated := fp.(conditions := conditions);
    }

    /** Creates or updates the stored object, but only when the CIDRs really changed. */
    method ApplyNetworkPolicy(desired: NetworkPolicy, faults: Faults) returns (ok: bool)
      modifies this`stored
      ensures ok == Applies(old(stored), desired, faults)
      ensures stored == AfterApply(old(stored), desired, faults)
      ensures faults.get ==> !ok && stored == old(stored)
      ensures !faults.get && old(stored).None? ==>
                if faults.write then !ok && stored == None else ok && stored == Some(desired)
      ensures !faults.get && old(stored).Some? ==>
                if SameCIDRs(old(stored).value.egress, desired.egress) then ok && stored == old(stored)
                else if faults.write then !ok && stored == old(stored)
                else
                  && ok && stored.Some?
                  && stored.value.name == old(stored).value.name
                     && stored.value.namespace == old(stored).value.namespace
                  && stored.value.labels == desired.labels && stored.value.podSelector == desired.podSelector
                  && stored.value.egress == desired.egress
    {
      if faults.get {
        return false;
      }
      if stored.None? {
        if faults.write { return false; }
        stored := Some(desired);
        return true;
      }
      var equal := IpSetsEqual(stored.value.egress, desired.egress);
      if equal {
        return true;
      }
      if faults.write { return false; }
      stored := Some(stored.value.(
        labels := desired.labels, podSelector := desired.podSelector, egress := desired.egress));
      return true;
    }

    /** The status update and the requeue delay. */
    method Finish(c: Cycle, fp: Status, ttlQueue: TTLQueue) returns (r: Outcome)
      requires ttlQueue.Valid()
      modifies this`status
      ensures status == if c.faults.statusUpdate then old(status) else fp
      ensures r.Requeue? <==> !c.faults.statusUpdate
      ensures r.Requeue? ==> IsNextRequeue(c.spec.resolutionTTLOverride, ttlQueue.deadlines, c.now, r.after)
      ensures r.Requeue? && c.spec.resolutionTTLOverride.Some? ==>
                Overrides(c.spec.resolutionTTLOverride.value, r.after)
    {
      if c.faults.statusUpdate {
        return Failure;
      }
      status := fp;
      if c.spec.resolutionTTLOverride.Some? {
        return Requeue(Clamp(c.spec.resolutionTTLOverride.value * SECOND, TTL_FLOOR, TTL_CEILING));
      }
      var after := ttlQueue.MinDelay(DEFAULT_POLL_INTERVAL, c.now);
      return Requeue(after);
    }
  }
}
