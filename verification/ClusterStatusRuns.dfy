/** Runs of one cluster policy's status: the range and retention guarantees carried over to the fan-out. */
module ClusterStatusRuns {
  import opened Strings
  import opened Addresses
  import opened IPFilter
  import opened Policies
  import opened NetPol
  import opened ResolutionPass
  import opened ClusterReconciler
  import ReconcilerRuns

  predicate Complete(cycles: seq<ClusterCycle>) {
    forall i | 0 <= i < |cycles| :: cycles[i].Complete()
  }

  /** The status after the first `n` cycles, starting from an empty one. */
  ghost function Run(parse: Parser, cycles: seq<ClusterCycle>, n: nat): ClusterStatus
    requires Complete(cycles) && n <= |cycles|
  {
    if n == 0 then EMPTY_STATUS else StatusAfter(parse, Run(parse, cycles, n - 1), cycles[n - 1])
  }

  /** The hosts that cycle `i` resolves, and fans out if it enforces. */
  ghost function ResolvedIn(parse: Parser, cycles: seq<ClusterCycle>, i: nat): seq<ResolvedHost>
    requires Complete(cycles) && i < |cycles|
  {
    cycles[i].PassFrom(Run(parse, cycles, i)).Resolved(parse)
  }

  ghost predicate Safe(parse: Parser, sec: Option<SecuritySpec>, hosts: seq<ResolvedHost>) {
    forall h, ip | h in hosts && ip in h.ips :: Passes(parse, sec, ip)
  }

  /** In no cycle, whatever the status then, do the answers record a host without the property. */
  ghost predicate AlwaysRecords(parse: Parser, cycles: seq<ClusterCycle>, good: ResolvedHost -> bool)
    requires Complete(cycles)
  {
    forall i, status | 0 <= i < |cycles| ::
        ReconcilerRuns.Controller(parse, "", "").RecordsOnly(cycles[i].PassFrom(status), good)
  }

  ghost predicate All(hosts: seq<ResolvedHost>, good: ResolvedHost -> bool) {
    forall h | h in hosts :: good(h)
  }

  lemma CycleKeepsAll(parse: Parser, status: ClusterStatus, c: ClusterCycle, good: ResolvedHost -> bool)
    requires c.Complete() && All(status.resolvedHosts, good)
    requires ReconcilerRuns.Controller(parse, "", "").RecordsOnly(c.PassFrom(status), good)
    ensures All(c.PassFrom(status).Resolved(parse), good)
    ensures All(StatusAfter(parse, status, c).resolvedHosts, good)
  {
    hide RuleEffect;
    ReconcilerRuns.Controller(parse, "", "").PassKeeps(c.PassFrom(status), |c.cp.spec.egress|, good);
  }

  /** Then every reachable status, and all hosts a cycle fans out, have only hosts with the property. */
  lemma {:induction false} ClusterRunKeeps(
    parse: Parser, cycles: seq<ClusterCycle>, good: ResolvedHost -> bool, n: nat)
    requires Complete(cycles) && n <= |cycles| && AlwaysRecords(parse, cycles, good)
    ensures All(Run(parse, cycles, n).resolvedHosts, good)
    ensures n < |cycles| ==> All(ResolvedIn(parse, cycles, n), good)
  {
    hide All, ReconcilerRuns.Controller.RecordsOnly, StatusAfter, Pass.Resolved;
    if n > 0 {
      ClusterRunKeeps(parse, cycles, good, n - 1);
      CycleKeepsAll(parse, Run(parse, cycles, n - 1), cycles[n - 1], good);
    } else {
      NothingRecorded(good);
    }
    if n < |cycles| {
      CycleKeepsAll(parse, Run(parse, cycles, n), cycles[n], good);
    }
  }

  lemma NothingRecorded(good: ResolvedHost -> bool)
    ensures All([], good)
  {
  }

  /** No reachable status, and no set of hosts a cycle fans out, holds an address of an enabled blocked range. */
  lemma ClusterRangeSafety(
    parse: Parser, cycles: seq<ClusterCycle>, sec: Option<SecuritySpec>, n: nat)
    requires Complete(cycles) && n <= |cycles| && forall i | 0 <= i < |cycles| :: cycles[i].cp.spec.security == sec
    ensures Safe(parse, sec, Run(parse, cycles, n).resolvedHosts)
    ensures n < |cycles| ==> Safe(parse, sec, ResolvedIn(parse, cycles, n))
  {
    hide Passes, Run, ResolvedIn, ReconcilerRuns.Controller.RecordsOnly;
    var k := ReconcilerRuns.Controller(parse, "", "");
    var good := h => k.SafeHost(sec, h);
    forall i, status | 0 <= i < |cycles| ensures k.RecordsOnly(cycles[i].PassFrom(status), good) {
      k.AnswersSafe(cycles[i].PassFrom(status));
    }
    ClusterRunKeeps(parse, cycles, good, n);
    assert forall h | h in Run(parse, cycles, n).resolvedHosts :: k.SafeHost(sec, h);
    assert n < |cycles| ==> forall h | h in ResolvedIn(parse, cycles, n) :: k.SafeHost(sec, h);
  }

  /** The cycle has a rule for this hostname, and every lookup for it fails. */
  predicate OnlyFails(c: ClusterCycle, hostname: string)
    requires c.Complete()
  {
    && (exists i | 0 <= i < |c.lookups| :: c.cp.spec.egress[i].pattern == hostname)
    && (forall i | 0 <= i < |c.lookups| :: c.cp.spec.egress[i].pattern == hostname ==> c.lookups[i].outcome.Failed?)
  }

  /** However long the lookups for a hostname fail from cycle `k` on, the hosts fanned out keep its entry unchanged. */
  lemma {:induction false} ClusterOutageRetains(
    parse: Parser, cycles: seq<ClusterCycle>, k: nat, n: nat, hostname: string)
    requires Complete(cycles) && k <= n <= |cycles|
    requires forall i | k <= i < n :: OnlyFails(cycles[i], hostname)
    requires Previous(Run(parse, cycles, k).resolvedHosts, hostname).Some?
    ensures var entry := Previous(Run(parse, cycles, k).resolvedHosts, hostname);
            && Previous(Run(parse, cycles, n).resolvedHosts, hostname) == entry
            && (k < n ==> Previous(ResolvedIn(parse, cycles, n - 1), hostname) == entry)
  {
    hide Previous, OnlyFails, StatusAfter, Pass.Resolved;
    if k < n {
      ClusterOutageRetains(parse, cycles, k, n - 1, hostname);
      CycleKeeps(parse, Run(parse, cycles, n - 1), cycles[n - 1], hostname);
      StatusKeeps(parse, Run(parse, cycles, n - 1), cycles[n - 1], hostname);
    }
  }

  lemma StatusKeeps(parse: Parser, status: ClusterStatus, c: ClusterCycle, hostname: string)
    requires c.Complete() && OnlyFails(c, hostname)
    requires Previous(status.resolvedHosts, hostname).Some?
    ensures Previous(StatusAfter(parse, status, c).resolvedHosts, hostname) == Previous(status.resolvedHosts, hostname)
  {
    hide Previous, OnlyFails, Pass.Resolved;
    CycleKeeps(parse, status, c, hostname);
  }

  lemma CycleKeeps(parse: Parser, status: ClusterStatus, c: ClusterCycle, hostname: string)
    requires c.Complete() && OnlyFails(c, hostname)
    requires Previous(status.resolvedHosts, hostname).Some?
    ensures Previous(c.PassFrom(status).Resolved(parse), hostname) == Previous(status.resolvedHosts, hostname)
  {
    hide RuleEffect, Previous;
    ReconcilerRuns.Controller(parse, "", "").PassRetains(c.PassFrom(status), |c.cp.spec.egress|, hostname);
  }

  /** The object that such a cycle wants in a namespace allows each retained address on the pooled ports. */
  lemma ClusterOutageAllows(
    parse: Parser, cycles: seq<ClusterCycle>, k: nat, n: nat, hostname: string, ns: string, ip: string, t: Traffic)
    requires Complete(cycles) && k < n <= |cycles|
    requires forall i | k <= i < n :: OnlyFails(cycles[i], hostname)
    requires Previous(Run(parse, cycles, k).resolvedHosts, hostname).Some?
    requires ip in Previous(Run(parse, cycles, k).resolvedHosts, hostname).value.ips && parse(ip) == Some(t.dest)
    requires PortMatches(PooledPorts(cycles[n - 1].cp.spec.egress), t)
    ensures Allows(parse, Desired(parse, cycles[n - 1].cp, ns, ResolvedIn(parse, cycles, n - 1)).egress, t)
  {
    ClusterOutageRetains(parse, cycles, k, n, hostname);
    var hosts := ResolvedIn(parse, cycles, n - 1);
    PreviousRecorded(hosts, hostname);
    hide Run, ResolvedIn, Previous, OnlyFails, Built, Allows;
    BuildDenotes(parse, SyntheticPolicy(cycles[n - 1].cp, ns, hosts), t);
  }
}
