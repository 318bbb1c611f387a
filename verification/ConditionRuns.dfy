/** What the conditions of a policy say after a whole run of the namespaced controller. */
module ConditionRuns {
  import opened Strings
  import opened Policies
  import opened Conditions
  import opened ResolutionPass
  import opened Reconciler
  import opened ReconcilerRuns

  /** The calls a cycle makes on its working copy, in order. */
  ghost function CycleCalls(k: Controller, w: World, c: Cycle): seq<Call<Message>>
    requires c.Complete()
  {
    var pass := PassOf(c, w.status);
    var problems := pass.Problems(k.parse, |c.spec.egress|);
    [DivergenceCall(c, pass.Resolved(k.parse))]
    + if c.spec.mode.Audit? then [AuditCall(c)]
      else if Frozen(k.parse, w.status, c) then [FrozenCall(c, "Ready", false), FrozenCall(c, "Degraded", true)]
      else [ReadyCall(c, problems), DegradedCall(c, problems)]
  }

  ghost predicate Lands(k: Controller, w: World, e: Event)
    requires e.Reconciled? ==> e.c.Complete()
  {
    e.Reconciled? && Succeeds(k.parse, k.name, k.namespace, w, e.c)
  }

  /** The calls of all cycles whose status update succeeded. */
  ghost function CallLog(k: Controller, events: seq<Event>): seq<Call<Message>>
    requires Complete(events)
  {
    if events == [] then []
    else
      var before, e := events[..|events| - 1], events[|events| - 1];
      CallLog(k, before) + if Lands(k, k.Run(before).world, e) then CycleCalls(k, k.Run(before).world, e.c) else []
  }

  lemma AfterOne(log: seq<Call<Message>>, c: Call<Message>)
    ensures After(log + [c]) == Upserted(After(log), c)
  {
    assert (log + [c])[..|log|] == log;
  }

  lemma AfterCycle(k: Controller, w: World, c: Cycle, log: seq<Call<Message>>)
    requires c.Complete() && w.status.conditions == After(log)
    ensures NextStatus(k.parse, k.name, w.status, c).conditions == After(log + CycleCalls(k, w, c))
  {
    hide Upserted, After, DivergenceCall, AuditCall, FrozenCall, ReadyCall, DegradedCall, Frozen, Pass.Problems;
    var calls := CycleCalls(k, w, c);
    AfterOne(log, calls[0]);
    AfterOne(log + [calls[0]], calls[1]);
    if |calls| == 3 {
      AfterOne(log + [calls[0]] + [calls[1]], calls[2]);
      assert log + calls == log + [calls[0]] + [calls[1]] + [calls[2]];
    } else {
      assert log + calls == log + [calls[0]] + [calls[1]];
    }
  }

  /** Failed cycles and deletions leave no trace in the conditions; every other cycle leaves its calls. */
  lemma {:induction false} CallsMakeConditions(k: Controller, events: seq<Event>)
    requires Complete(events)
    ensures k.Run(events).world.status.conditions == After(CallLog(k, events))
  {
    if events != [] {
      var before, e := events[..|events| - 1], events[|events| - 1];
      CallsMakeConditions(k, before);
      var t := k.Run(before);
      StepStatus(k, t, e);
      hide After, NextStatus, CycleCalls, Succeeds, Controller.Step;
      if Lands(k, t.world, e) {
        AfterCycle(k, t.world, e.c, CallLog(k, before));
      } else {
        assert CallLog(k, events) == CallLog(k, before);
      }
    }
  }

  lemma StepStatus(k: Controller, t: Trace, e: Event)
    requires e.Reconciled? ==> e.c.Complete()
    ensures k.Step(t, e).world.status ==
              if Lands(k, t.world, e) then NextStatus(k.parse, k.name, t.world.status, e.c) else t.world.status
  {
    hide NextStatus, Succeeds, NextStored, Controller.AppliesCycle, NeedsWrite;
  }

  /** Over whole runs: one condition per type, from its latest call, timed by its latest change of status. */
  lemma ConditionsOverRuns(k: Controller, events: seq<Event>, kind: string)
    requires Complete(events)
    ensures var conditions, calls := k.Run(events).world.status.conditions, OfKind(CallLog(k, events), kind);
            DistinctKinds(conditions) && Holds(conditions, kind, if calls == [] then None else Some(Summary(calls)))
  {
    CallsMakeConditions(k, events);
    ConditionsSummarizeHistory(CallLog(k, events), kind);
  }

  lemma OfKindOne(log: seq<Call<Message>>, c: Call<Message>, kind: string)
    ensures OfKind(log + [c], kind) == if c.kind == kind then OfKind(log, kind) + [c] else OfKind(log, kind)
  {
    assert (log + [c])[..|log|] == log;
  }

  /** The last call of this kind in a cycle's list of calls, if it has one. */
  function LastOf(calls: seq<Call<Message>>, kind: string): Option<Call<Message>> {
    if calls == [] then None
    else if calls[|calls| - 1].kind == kind then Some(calls[|calls| - 1])
    else LastOf(calls[..|calls| - 1], kind)
  }

  lemma {:induction false} LastOfKind(log: seq<Call<Message>>, calls: seq<Call<Message>>, kind: string)
    requires LastOf(calls, kind).Some?
    ensures var r := OfKind(log + calls, kind);
            r != [] && r[|r| - 1] == LastOf(calls, kind).value
  {
    var n := |calls| - 1;
    assert log + calls == log + calls[..n] + [calls[n]];
    OfKindOne(log + calls[..n], calls[n], kind);
    if calls[n].kind != kind {
      LastOfKind(log, calls[..n], kind);
    }
  }

  /** There is exactly one condition of this kind, and it has this status. */
  ghost predicate Tells(conditions: seq<Condition<Message>>, kind: string, status: bool) {
    exists c :: Holds(conditions, kind, Some(c)) && c.status == status
  }

  /** The status of the calls a cycle makes, kind by kind. */
  lemma CycleVerdicts(k: Controller, w: World, c: Cycle)
    requires c.Complete()
    ensures var calls := CycleCalls(k, w, c);
            var pass := PassOf(c, w.status);
            var clean := pass.Problems(k.parse, |c.spec.egress|) == [];
            var ready, degraded, divergence := LastOf(calls, "Ready"), LastOf(calls, "Degraded"),
                LastOf(calls, "ResolverDivergence");
            && ready.Some? && divergence.Some? && (degraded.None? <==> c.spec.mode.Audit?)
            && ready.value.status == (c.spec.mode.Audit? || (clean && !Frozen(k.parse, w.status, c)))
            && (degraded.Some? ==> degraded.value.status == !(clean && !Frozen(k.parse, w.status, c)))
            && divergence.value.status == AnyDivergence(pass.Resolved(k.parse))
  {
    hide Frozen, Pass.Problems, Pass.Resolved, AnyDivergence;
    var calls := CycleCalls(k, w, c);
    hide LastOf;
    KindsDiffer();
    LastOfFew(calls, "Ready");
    LastOfFew(calls, "Degraded");
    LastOfFew(calls, "ResolverDivergence");
    var pass := PassOf(c, w.status);
    CallVerdicts(c, pass.Resolved(k.parse), pass.Problems(k.parse, |c.spec.egress|));
    hide DivergenceCall, AuditCall, FrozenCall, ReadyCall, DegradedCall;
  }

  /** Type and status of each call a cycle can make. */
  lemma CallVerdicts(c: Cycle, hosts: seq<ResolvedHost>, problems: seq<Problem>)
    ensures DivergenceCall(c, hosts).kind == "ResolverDivergence"
            && DivergenceCall(c, hosts).status == AnyDivergence(hosts)
    ensures AuditCall(c).kind == "Ready" && AuditCall(c).status
    ensures forall kind, status ::
            FrozenCall(c, kind, status).kind == kind && FrozenCall(c, kind, status).status == status
    ensures ReadyCall(c, problems).kind == "Ready" && ReadyCall(c, problems).status == (problems == [])
    ensures DegradedCall(c, problems).kind == "Degraded" && DegradedCall(c, problems).status == (problems != [])
  {
  }

  /** The reason that each ending of a cycle gives, with the generation reconciled and the time of the cycle. */
  lemma CallReasons(c: Cycle, hosts: seq<ResolvedHost>, problems: seq<Problem>, kind: string, status: bool)
    ensures DivergenceCall(c, hosts).reason == if AnyDivergence(hosts) then "ResolverDisagreement" else "NoDivergence"
    ensures AuditCall(c).reason == "AuditMode" && FrozenCall(c, kind, status).reason == "DivergenceBlocked"
    ensures ReadyCall(c, problems).reason == if problems == [] then "Reconciled" else "ResolutionDegraded"
    ensures DegradedCall(c, problems).reason == if problems == [] then "OK" else "ResolutionErrors"
    ensures forall call | call in [DivergenceCall(c, hosts), AuditCall(c), FrozenCall(c, kind, status),
                                   ReadyCall(c, problems), DegradedCall(c, problems)] ::
              call.generation == c.generation && call.now == c.now
  {
  }

  lemma KindsDiffer()
    ensures "Ready" != "Degraded" && "Degraded" != "ResolverDivergence" && "ResolverDivergence" != "Ready"
  {
    assert |"Ready"| == 5 && |"Degraded"| == 8 && |"ResolverDivergence"| == 18;
  }

  lemma LastOfFew(calls: seq<Call<Message>>, kind: string)
    ensures |calls| == 2 ==> LastOf(calls, kind) == if calls[1].kind == kind then Some(calls[1])
                                                   else if calls[0].kind == kind then Some(calls[0]) else None
    ensures |calls| == 3 ==> LastOf(calls, kind) == if calls[2].kind == kind then Some(calls[2])
                                                   else if calls[1].kind == kind then Some(calls[1])
                                                   else if calls[0].kind == kind then Some(calls[0]) else None
  {
    if |calls| == 3 {
      LastOfFew(calls[..2], kind);
    } else if |calls| == 2 {
      assert calls[..1][..0] == [];
      assert LastOf(calls[..1], kind) == if calls[0].kind == kind then Some(calls[0]) else None;
    }
  }

  /**
   * After a cycle that succeeded, Ready is true exactly in audit mode or when nothing was frozen and no
   * problem arose; Degraded is the opposite outside audit mode; ResolverDivergence tells whether any
   * recorded host was disputed.
   */
  lemma ConditionsTellTheTruth(k: Controller, events: seq<Event>)
    requires Complete(events) && events != []
    requires Lands(k, k.Run(events[..|events| - 1]).world, events[|events| - 1])
    ensures var w, c := k.Run(events[..|events| - 1]).world, events[|events| - 1].c;
            var conditions := k.Run(events).world.status.conditions;
            var clean := PassOf(c, w.status).Problems(k.parse, |c.spec.egress|) == [] && !Frozen(k.parse, w.status, c);
            && Tells(conditions, "Ready", c.spec.mode.Audit? || clean)
            && (c.spec.mode.Enforce? ==> Tells(conditions, "Degraded", !clean))
            && Tells(conditions, "ResolverDivergence", AnyDivergence(PassOf(c, w.status).Resolved(k.parse)))
  {
    hide CycleCalls, Controller.Run, Frozen, AnyDivergence, OfKind, LastOf, Succeeds, Pass.Problems, Pass.Resolved;
    var before, e := events[..|events| - 1], events[|events| - 1];
    var w := k.Run(before).world;
    var calls := CycleCalls(k, w, e.c);
    CycleVerdicts(k, w, e.c);
    assert CallLog(k, events) == CallLog(k, before) + calls;
    Told(k, events, CallLog(k, before), calls, "Ready");
    Told(k, events, CallLog(k, before), calls, "ResolverDivergence");
    if e.c.spec.mode.Enforce? {
      Told(k, events, CallLog(k, before), calls, "Degraded");
    }
  }

  lemma Told(k: Controller, events: seq<Event>, log: seq<Call<Message>>, calls: seq<Call<Message>>, kind: string)
    requires Complete(events) && CallLog(k, events) == log + calls && LastOf(calls, kind).Some?
    ensures Tells(k.Run(events).world.status.conditions, kind, LastOf(calls, kind).value.status)
  {
    hide Holds, Controller.Run, CallLog;
    ConditionsOverRuns(k, events, kind);
    LastOfKind(log, calls, kind);
    assert Holds(k.Run(events).world.status.conditions, kind, Some(Summary(OfKind(log + calls, kind))));
  }
}
