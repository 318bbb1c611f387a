/** What the conditions of a cluster policy say after a whole run. */
module ClusterConditionRuns {
  import opened Strings
  import opened Addresses
  import opened IPFilter
  import opened Policies
  import opened Conditions
  import opened ResolutionPass
  import opened ClusterReconciler
  import opened ClusterStatusRuns
  import C = ConditionRuns
  import R = Reconciler

  type Log = seq<Call<R.Message>>

  function CallOf(c: ClusterCycle, kind: string, status: bool, reason: string, message: R.Message): Call<R.Message> {
    Call(kind, status, reason, message, c.generation, c.now)
  }

  function DivergenceCall(c: ClusterCycle, hosts: seq<ResolvedHost>): Call<R.Message> {
    if R.AnyDivergence(hosts)
    then CallOf(c, "ResolverDivergence", true, "ResolverDisagreement", R.DivergentHosts(hosts))
    else CallOf(c, "ResolverDivergence", false, "NoDivergence", R.Text(""))
  }

  predicate Freezing(c: ClusterCycle, hosts: seq<ResolvedHost>) {
    c.cp.spec.mode.Enforce? && c.Freezes(hosts)
  }

  /** The calls after the divergence call: a freeze sets two conditions, any other ending only Ready. */
  function EndCalls(c: ClusterCycle, frozen: bool, problems: seq<Problem>): Log {
    var message := R.Text("resolver disagreement detected; NetworkPolicy fan-out skipped");
    if frozen then
      [CallOf(c, "Ready", false, "DivergenceBlocked", message),
          CallOf(c, "Degraded", true, "DivergenceBlocked", message)]
    else if problems != [] then [CallOf(c, "Ready", false, "ResolutionDegraded", R.ProblemList(problems))]
    else [CallOf(c, "Ready", true, "Reconciled", R.Text("NetworkPolicies synced to all matched namespaces"))]
  }

  /** The calls a cycle makes on its working copy, in order. */
  ghost function CycleCalls(parse: Parser, status: ClusterStatus, c: ClusterCycle): Log
    requires c.Complete()
  {
    var hosts := c.PassFrom(status).Resolved(parse);
    [DivergenceCall(c, hosts)]
    + EndCalls(c, Freezing(c, hosts), c.PassFrom(status).Problems(parse, |c.cp.spec.egress|))
  }

  /** The namespaces were listed and the status update succeeded. */
  predicate Lands(c: ClusterCycle) {
    c.matched.Some? && !c.statusFails
  }

  /** The calls of the first `n` cycles, those that land. */
  ghost function CallLog(parse: Parser, cycles: seq<ClusterCycle>, n: nat): Log
    requires Complete(cycles) && n <= |cycles|
  {
    if n == 0 then []
    else
      var c, status := cycles[n - 1], Run(parse, cycles, n - 1);
      CallLog(parse, cycles, n - 1) + if Lands(c) then CycleCalls(parse, status, c) else []
  }

  /** The status conditions of a cycle, call by call. */
  lemma SetsAreUpserts(
    c: ClusterCycle, hosts: seq<ResolvedHost>, problems: seq<Problem>, conditions: seq<Condition<R.Message>>)
    ensures c.DivergenceSet(hosts, conditions) == Upserted(conditions, DivergenceCall(c, hosts))
    ensures var ends := EndCalls(c, Freezing(c, hosts), problems);
            c.ReadySet(Freezing(c, hosts), problems, conditions) ==
              if Freezing(c, hosts) then Upserted(Upserted(conditions, ends[0]), ends[1])
                  else Upserted(conditions, ends[0])
  {
    hide Upserted, R.AnyDivergence, ClusterCycle.Freezes;
  }

  lemma AfterCalls(log: Log, first: Call<R.Message>, ends: Log)
    requires 1 <= |ends| <= 2
    ensures After(log + ([first] + ends)) ==
              if |ends| == 2 then Upserted(Upserted(Upserted(After(log), first), ends[0]), ends[1])
              else Upserted(Upserted(After(log), first), ends[0])
  {
    hide Upserted, After;
    C.AfterOne(log, first);
    C.AfterOne(log + [first], ends[0]);
    if |ends| == 2 {
      C.AfterOne(log + [first] + [ends[0]], ends[1]);
      assert log + ([first] + ends) == log + [first] + [ends[0]] + [ends[1]];
    } else {
      assert log + ([first] + ends) == log + [first] + [ends[0]];
    }
  }

  lemma AfterCycle(parse: Parser, status: ClusterStatus, c: ClusterCycle, log: Log)
    requires c.Complete() && Lands(c) && status.conditions == After(log)
    ensures StatusAfter(parse, status, c).conditions == After(log + CycleCalls(parse, status, c))
  {
    hide Upserted, After, Pass.Resolved, Pass.Problems, EndCalls, DivergenceCall, ClusterCycle.DivergenceSet,
      ClusterCycle.ReadySet, ClusterCycle.Freezes;
    var hosts := c.PassFrom(status).Resolved(parse);
    var problems := c.PassFrom(status).Problems(parse, |c.cp.spec.egress|);
    EndKinds(c, Freezing(c, hosts), problems);
    SetsAreUpserts(c, hosts, problems, status.conditions);
    SetsAreUpserts(c, hosts, problems, c.DivergenceSet(hosts, status.conditions));
    AfterCalls(log, DivergenceCall(c, hosts), EndCalls(c, Freezing(c, hosts), problems));
  }

  lemma {:induction false} CallsMakeConditions(parse: Parser, cycles: seq<ClusterCycle>, n: nat)
    requires Complete(cycles) && n <= |cycles|
    ensures Run(parse, cycles, n).conditions == After(CallLog(parse, cycles, n))
  {
    if n > 0 {
      CallsMakeConditions(parse, cycles, n - 1);
      hide After, CycleCalls;
      if Lands(cycles[n - 1]) {
        AfterCycle(parse, Run(parse, cycles, n - 1), cycles[n - 1], CallLog(parse, cycles, n - 1));
      } else {
        assert CallLog(parse, cycles, n) == CallLog(parse, cycles, n - 1);
      }
    }
  }

  /** One condition per type, from its latest call, timed by its latest change of status. */
  lemma ClusterConditionsOverRuns(parse: Parser, cycles: seq<ClusterCycle>, n: nat, kind: string)
    requires Complete(cycles) && n <= |cycles|
    ensures var conditions, calls := Run(parse, cycles, n).conditions, OfKind(CallLog(parse, cycles, n), kind);
            DistinctKinds(conditions) && Holds(conditions, kind, if calls == [] then None else Some(Summary(calls)))
  {
    CallsMakeConditions(parse, cycles, n);
    ConditionsSummarizeHistory(CallLog(parse, cycles, n), kind);
  }

  // ---- Degraded ----

  /** The cycle landed and was frozen. */
  ghost predicate Froze(parse: Parser, cycles: seq<ClusterCycle>, i: nat)
    requires Complete(cycles) && i < |cycles|
  {
    Lands(cycles[i]) && Freezing(cycles[i], ResolvedIn(parse, cycles, i))
  }

  ghost predicate EverFroze(parse: Parser, cycles: seq<ClusterCycle>, n: nat)
    requires Complete(cycles) && n <= |cycles|
  {
    exists i | 0 <= i < n :: Froze(parse, cycles, i)
  }

  /** Types and statuses of the calls of a cycle. */
  lemma EndKinds(c: ClusterCycle, frozen: bool, problems: seq<Problem>)
    ensures var ends := EndCalls(c, frozen, problems);
            && |ends| == (if frozen then 2 else 1)
            && ends[0].kind == "Ready" && ends[0].status == (!frozen && problems == [])
            && (frozen ==> ends[1].kind == "Degraded" && ends[1].status)
    ensures forall hosts ::
              && DivergenceCall(c, hosts).kind == "ResolverDivergence"
              && DivergenceCall(c, hosts).status == R.AnyDivergence(hosts)
  {
  }

  lemma DegradedOfCalls(log: Log, first: Call<R.Message>, ends: Log)
    requires 1 <= |ends| <= 2 && first.kind != "Degraded" && ends[0].kind != "Degraded"
    requires |ends| == 2 ==> ends[1].kind == "Degraded"
    ensures OfKind(log + ([first] + ends), "Degraded") == OfKind(log, "Degraded") + ends[1..]
  {
    hide OfKind;
    C.OfKindOne(log, first, "Degraded");
    C.OfKindOne(log + [first], ends[0], "Degraded");
    if |ends| == 2 {
      C.OfKindOne(log + [first] + [ends[0]], ends[1], "Degraded");
      assert log + ([first] + ends) == log + [first] + [ends[0]] + [ends[1]] && ends[1..] == [ends[1]];
    } else {
      assert log + ([first] + ends) == log + [first] + [ends[0]] && ends[1..] == [];
    }
  }

  lemma DegradedOfCycle(parse: Parser, cycles: seq<ClusterCycle>, n: nat, log: Log)
    requires Complete(cycles) && n < |cycles| && Lands(cycles[n])
    ensures var calls := CycleCalls(parse, Run(parse, cycles, n), cycles[n]);
            exists more :: OfKind(log + calls, "Degraded") == OfKind(log, "Degraded") + more
                           && |more| == (if Froze(parse, cycles, n) then 1 else 0) && forall c | c in more :: c.status
  {
    var c, pass := cycles[n], cycles[n].PassFrom(Run(parse, cycles, n));
    var hosts, problems := pass.Resolved(parse), pass.Problems(parse, |c.cp.spec.egress|);
    var first, ends := DivergenceCall(c, hosts), EndCalls(c, Freezing(c, hosts), problems);
    C.KindsDiffer();
    hide OfKind, Run, Pass.Resolved, Pass.Problems, EndCalls, DivergenceCall, Freezing;
    EndKinds(c, Freezing(c, hosts), problems);
    DegradedOfCalls(log, first, ends);
    assert |ends[1..]| == (if Froze(parse, cycles, n) then 1 else 0);
  }

  lemma {:induction false} DegradedCalls(parse: Parser, cycles: seq<ClusterCycle>, n: nat)
    requires Complete(cycles) && n <= |cycles|
    ensures OfKind(CallLog(parse, cycles, n), "Degraded") != [] <==> EverFroze(parse, cycles, n)
    ensures forall c | c in OfKind(CallLog(parse, cycles, n), "Degraded") :: c.status
  {
    hide OfKind, CycleCalls, Froze, Run;
    if n == 0 {
      NoCalls("Degraded");
    } else {
      DegradedCalls(parse, cycles, n - 1);
      var log := CallLog(parse, cycles, n - 1);
      if Lands(cycles[n - 1]) {
        DegradedOfCycle(parse, cycles, n - 1, log);
      } else {
        assert CallLog(parse, cycles, n) == log;
        NotLandedNotFrozen(parse, cycles, n - 1);
      }
    }
  }

  lemma NoCalls(kind: string)
    ensures OfKind<R.Message>([], kind) == []
  {
  }

  lemma NotLandedNotFrozen(parse: Parser, cycles: seq<ClusterCycle>, i: nat)
    requires Complete(cycles) && i < |cycles| && !Lands(cycles[i])
    ensures !Froze(parse, cycles, i)
  {
  }

  /**
   * Degraded is never set to false and never taken away: it is there, and true, exactly when some cycle
   * of the run landed frozen, however many clean ones followed.
   */
  lemma DegradedIffEverFrozen(parse: Parser, cycles: seq<ClusterCycle>, n: nat)
    requires Complete(cycles) && n <= |cycles|
    ensures var conditions := Run(parse, cycles, n).conditions;
            if EverFroze(parse, cycles, n) then C.Tells(conditions, "Degraded", true)
            else forall x | x in conditions :: x.kind != "Degraded"
  {
    ClusterConditionsOverRuns(parse, cycles, n, "Degraded");
    DegradedCalls(parse, cycles, n);
    hide Run, CallLog, EverFroze, OfKind, DistinctKinds;
    var calls := OfKind(CallLog(parse, cycles, n), "Degraded");
    if calls != [] {
      assert calls[|calls| - 1] in calls;
      assert Holds(Run(parse, cycles, n).conditions, "Degraded", Some(Summary(calls)));
    }
  }

  // ---- Ready and ResolverDivergence ----

  lemma CycleVerdicts(parse: Parser, status: ClusterStatus, c: ClusterCycle)
    requires c.Complete()
    ensures var calls, pass := CycleCalls(parse, status, c), c.PassFrom(status);
            var clean := pass.Problems(parse, |c.cp.spec.egress|) == [] && !Freezing(c, pass.Resolved(parse));
            var ready, divergence := C.LastOf(calls, "Ready"), C.LastOf(calls, "ResolverDivergence");
            && ready.Some? && ready.value.status == clean
            && divergence.Some? && divergence.value.status == R.AnyDivergence(pass.Resolved(parse))
  {
    hide C.LastOf, Pass.Resolved, Pass.Problems, R.AnyDivergence, EndCalls, DivergenceCall, Freezing;
    var calls, pass := CycleCalls(parse, status, c), c.PassFrom(status);
    C.KindsDiffer();
    EndKinds(c, Freezing(c, pass.Resolved(parse)), pass.Problems(parse, |c.cp.spec.egress|));
    C.LastOfFew(calls, "Ready");
    C.LastOfFew(calls, "ResolverDivergence");
  }

  /**
   * After a cycle that lands Ready is true exactly when nothing was frozen and no problem arose, and
   * ResolverDivergence tells whether any recorded host was disputed.
   */
  lemma ClusterConditionsTellTheTruth(parse: Parser, cycles: seq<ClusterCycle>, n: nat)
    requires Complete(cycles) && n < |cycles| && Lands(cycles[n])
    ensures var conditions, pass := Run(parse, cycles, n + 1).conditions, cycles[n].PassFrom(Run(parse, cycles, n));
            var problems := pass.Problems(parse, |cycles[n].cp.spec.egress|);
            && C.Tells(conditions, "Ready", problems == [] && !Froze(parse, cycles, n))
            && C.Tells(conditions, "ResolverDivergence", R.AnyDivergence(ResolvedIn(parse, cycles, n)))
  {
    var log, calls := CallLog(parse, cycles, n), CycleCalls(parse, Run(parse, cycles, n), cycles[n]);
    CycleVerdicts(parse, Run(parse, cycles, n), cycles[n]);
    assert CallLog(parse, cycles, n + 1) == log + calls;
    hide Run, CallLog, CycleCalls, Pass.Resolved, Pass.Problems, C.LastOf, C.Tells;
    Told(parse, cycles, n + 1, log, calls, "Ready");
    Told(parse, cycles, n + 1, log, calls, "ResolverDivergence");
  }

  lemma Told(parse: Parser, cycles: seq<ClusterCycle>, n: nat, log: Log, calls: Log, kind: string)
    requires Complete(cycles) && n <= |cycles| && CallLog(parse, cycles, n) == log + calls
    requires C.LastOf(calls, kind).Some?
    ensures C.Tells(Run(parse, cycles, n).conditions, kind, C.LastOf(calls, kind).value.status)
  {
    hide Holds, Run, CallLog;
    ClusterConditionsOverRuns(parse, cycles, n, kind);
    C.LastOfKind(log, calls, kind);
    assert Holds(Run(parse, cycles, n).conditions, kind, Some(Summary(OfKind(log + calls, kind))));
  }

  // ---- a run whose Degraded outlives its cause ----

  const FREEZE: Option<SecuritySpec> := Some(SecuritySpec(None, None, None, None, Some(true), None))

  function Answer(ip: string, divergence: int): Lookup {
    Lookup(Answered(Resolution([ip], [], 0, false, divergence, map[])), 1, 0)
  }

  function OneRuleCycle(ip: string, divergence: int): ClusterCycle {
    var spec := PolicySpec(LabelSelector(map[], []), [FQDNRule("h", [])], Enforce, None, FREEZE);
    ClusterCycle(ClusterPolicy("p", spec), 1, [Answer(ip, divergence)], Some([]), 1, Faults({}, {}, false, {}), false)
  }

  lemma OneRuleEffect(parse: Parser, prev: seq<ResolvedHost>, ip: string, divergence: int)
    requires Passes(parse, FREEZE, ip)
    ensures var e := RuleEffect(parse, ClusterWide, FREEZE, prev, "h", Answer(ip, divergence));
            e.host == Some(RecordedHost("h", Answer(ip, divergence), [ip])) && e.problems == []
  {
    var sec: Option<SecuritySpec> := FREEZE;
    var res := Answer(ip, divergence).outcome.res;
    FilterOne(ip, ip => Passes(parse, sec, ip));
    FilterOne(ip, ip => !Passes(parse, sec, ip));
    assert Kept(sec, res) == [ip];
    hide Passes, Filter, RecordedHost;
    assert Admitted(parse, sec, res) == [ip] && Blocked(parse, sec, res) == [] && Outvoted(sec, res) == [];
  }

  lemma OneRulePass(parse: Parser, status: ClusterStatus, ip: string, divergence: int)
    requires Passes(parse, FREEZE, ip)
    ensures var c := OneRuleCycle(ip, divergence);
            && c.Complete() && Lands(c)
            && R.AnyDivergence(c.PassFrom(status).Resolved(parse)) == (divergence > 0)
            && c.PassFrom(status).Problems(parse, |c.cp.spec.egress|) == []
  {
    var c := OneRuleCycle(ip, divergence);
    var p := c.PassFrom(status);
    var host := RecordedHost("h", Answer(ip, divergence), [ip]);
    OneRuleEffect(parse, status.resolvedHosts, ip, divergence);
    assert host.security.resolverDivergence == divergence;
    hide RuleEffect, Passes, RecordedHost;
    assert p.At(parse, 0).host == Some(host) && p.At(parse, 0).problems == [];
    HostsStep(parse, p, 0);
    assert p.Hosts(parse, 1) == [] + [host] == [host];
    assert p.Problems(parse, 1) == p.Problems(parse, 0) + [];
  }

  function FreezeThenClean(ip: string): seq<ClusterCycle> {
    [OneRuleCycle(ip, 1), OneRuleCycle(ip, 0)]
  }

  lemma FirstFreezesOnly(parse: Parser, ip: string)
    requires Passes(parse, FREEZE, ip)
    ensures var cycles := FreezeThenClean(ip);
            && |cycles| == 2 && Complete(cycles) && Lands(cycles[1])
            && Froze(parse, cycles, 0) && !Froze(parse, cycles, 1)
            && cycles[1].PassFrom(Run(parse, cycles, 1)).Problems(parse, |cycles[1].cp.spec.egress|) == []
  {
    var cycles := FreezeThenClean(ip);
    OneRulePass(parse, Run(parse, cycles, 0), ip, 1);
    OneRulePass(parse, Run(parse, cycles, 1), ip, 0);
    hide Run, Passes, Pass.Resolved, Pass.Problems, R.AnyDivergence;
  }

  /** A freeze and then a clean fan-out: Ready becomes true, and Degraded stays true beside it. */
  lemma DegradedOutlivesFreeze(parse: Parser, ip: string)
    requires Passes(parse, FREEZE, ip)
    ensures var cycles := FreezeThenClean(ip);
            && |cycles| == 2 && Complete(cycles)
            && C.Tells(Run(parse, cycles, 2).conditions, "Ready", true)
            && C.Tells(Run(parse, cycles, 2).conditions, "Degraded", true)
  {
    var cycles := FreezeThenClean(ip);
    FirstFreezesOnly(parse, ip);
    hide FreezeThenClean, Run, Passes, Pass.Resolved, Pass.Problems, R.AnyDivergence, C.Tells, Froze, Lands;
    DegradedIffEverFrozen(parse, cycles, 2);
    ClusterConditionsTellTheTruth(parse, cycles, 1);
  }
}
