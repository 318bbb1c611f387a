/** One resolution pass over the egress rules, shared by the namespaced and cluster controllers. */
module ResolutionPass {
  import opened Strings
  import opened Addresses
  import opened IPFilter
  import opened TTLQueues
  import opened Policies

  const SECOND := 1_000_000_000
  const DEFAULT_POLL_INTERVAL := 60 * SECOND
  const TTL_FLOOR := 5 * SECOND
  const TTL_CEILING := 300 * SECOND
  const SHORT_TTL_THRESHOLD := 10 * SECOND

  /** A resolver's answer; a `ttl` of zero means "use the default poll interval". */
  datatype Resolution = Resolution(
    ips: seq<string>,
    cnameChain: seq<string>,
    ttl: int,
    dnssecValidated: bool,
    resolverDivergence: int,
    resolverResults: map<string, seq<string>>)

  datatype Outcome = Failed(reason: string) | Answered(res: Resolution)

  /** What one rule's lookup yields: the outcome, the clock then, and the churn rate if it is recorded. */
  datatype Lookup = Lookup(outcome: Outcome, at: Time, churn: int)

  /** The two controllers run the same pass; only the namespaced one skips wildcards and tracks retained hosts. */
  datatype Scope = Namespaced | ClusterWide

  datatype Problem =
    | WildcardSkipped(pattern: string)
    | LookupFailed(pattern: string, reason: string)
    | ConsensusBlocked(pattern: string, ip: string)
    | RangeBlocked(pattern: string, ip: string)
    | CNAMETooDeep(pattern: string, depth: nat, max: int)

  /** What one rule adds to the pass: a host to record, problems to report, a deadline to track. */
  datatype Effect = Effect(host: Option<ResolvedHost>, problems: seq<Problem>, deadline: Option<Time>)

  /** `findPrevious`: the first recorded host of that name. */
  function Previous(hosts: seq<ResolvedHost>, hostname: string): Option<ResolvedHost> {
    if hosts == [] then None
    else if hosts[0].hostname == hostname then Some(hosts[0])
    else Previous(hosts[1..], hostname)
  }

  function EffectiveTTL(res: Resolution): int {
    if res.ttl == 0 then DEFAULT_POLL_INTERVAL else res.ttl
  }

  function WholeSeconds(d: int): int {
    if d < 0 then -(-d / SECOND) else d / SECOND
  }

  function RecordedHost(pattern: string, look: Lookup, ips: seq<string>): ResolvedHost
    requires look.outcome.Answered?
  {
    var res := look.outcome.res;
    ResolvedHost(pattern, ips, res.cnameChain, look.at, WholeSeconds(EffectiveTTL(res)),
                 DNSSecurity(res.dnssecValidated, look.churn, res.resolverDivergence,
                             if res.resolverDivergence > 0 then res.resolverResults else map[],
                             0 < res.ttl < SHORT_TTL_THRESHOLD))
  }

  function ConsensusProblems(pattern: string, ips: seq<string>): seq<Problem> {
    seq(|ips|, i requires 0 <= i < |ips| => ConsensusBlocked(pattern, ips[i]))
  }

  function RangeProblems(pattern: string, ips: seq<string>): seq<Problem> {
    seq(|ips|, i requires 0 <= i < |ips| => RangeBlocked(pattern, ips[i]))
  }

  function CNAMEProblems(pattern: string, sec: Option<SecuritySpec>, chain: seq<string>): seq<Problem> {
    if sec.Some? && sec.value.maxCNAMEDepth.Some? && 0 < sec.value.maxCNAMEDepth.value < |chain|
    then [CNAMETooDeep(pattern, |chain|, sec.value.maxCNAMEDepth.value)]
    else []
  }

  /** The addresses that survive consensus. */
  ghost function Kept(sec: Option<SecuritySpec>, res: Resolution): seq<string> {
    if sec.Some? && sec.value.minResolverAgreement.Some?
    then ConsensusKept(res.ips, res.resolverResults, sec.value.minResolverAgreement.value)
    else res.ips
  }

  ghost function Outvoted(sec: Option<SecuritySpec>, res: Resolution): seq<string> {
    if sec.Some? && sec.value.minResolverAgreement.Some? && res.resolverResults != map[]
        && sec.value.minResolverAgreement.value > 1
    then Filter(res.ips, ip => !Agreed(res.resolverResults, sec.value.minResolverAgreement.value, ip))
    else []
  }

  /** The addresses that survive both filters. */
  ghost function Admitted(parse: Parser, sec: Option<SecuritySpec>, res: Resolution): seq<string> {
    Filter(Kept(sec, res), ip => Passes(parse, sec, ip))
  }

  ghost function Blocked(parse: Parser, sec: Option<SecuritySpec>, res: Resolution): seq<string> {
    Filter(Kept(sec, res), ip => !Passes(parse, sec, ip))
  }

  ghost function RuleEffect(
    parse: Parser, scope: Scope, sec: Option<SecuritySpec>, prev: seq<ResolvedHost>, pattern: string, look: Lookup
  ): Effect {
    if scope.Namespaced? && '*' in pattern then Effect(None, [WildcardSkipped(pattern)], None)
    else match look.outcome
      case Failed(reason) =>
        var kept := Previous(prev, pattern);
        Effect(kept, [LookupFailed(pattern, reason)],
               if kept.Some? && scope.Namespaced? then Some(look.at + DEFAULT_POLL_INTERVAL) else None)
      case Answered(res) =>
        var allowed, blocked := Admitted(parse, sec, res), Blocked(parse, sec, res);
        var problems := ConsensusProblems(pattern, Outvoted(sec, res)) + RangeProblems(pattern, blocked);
        var deadline := Some(look.at + EffectiveTTL(res));
        if allowed == [] && blocked != [] then Effect(None, problems, deadline)
        else Effect(Some(RecordedHost(pattern, look, allowed)),
                    problems + CNAMEProblems(pattern, sec, res.cnameChain), deadline)
  }

  // ---- what one rule adds, read off the spec, the answer and the recorded hosts ----

  /** Consensus does not stand in the way: it is off, has no data, or enough resolvers returned the address. */
  ghost predicate Backed(sec: Option<SecuritySpec>, res: Resolution, ip: string) {
    || sec.None? || sec.value.minResolverAgreement.None? || sec.value.minResolverAgreement.value <= 1
    || res.resolverResults == map[]
    || Agreement(res.resolverResults, ip) >= sec.value.minResolverAgreement.value
  }

  /** The text is no address, or the spec lets every range go that holds it. */
  ghost predicate OutsideRanges(parse: Parser, sec: Option<SecuritySpec>, ip: string) {
    parse(ip).Some? ==> OptedOut(sec, parse(ip).value)
  }

  /** The addresses of the answer that neither consensus nor a blocked range holds back, in order. */
  ghost function Surviving(parse: Parser, sec: Option<SecuritySpec>, res: Resolution): seq<string> {
    Filter(res.ips, ip => Backed(sec, res, ip) && OutsideRanges(parse, sec, ip))
  }

  lemma KeptMeaning(sec: Option<SecuritySpec>, res: Resolution)
    ensures Kept(sec, res) == Filter(res.ips, ip => Backed(sec, res, ip))
    ensures Outvoted(sec, res) == Filter(res.ips, ip => !Backed(sec, res, ip))
  {
    if sec.None? || sec.value.minResolverAgreement.None? || sec.value.minResolverAgreement.value <= 1
        || res.resolverResults == map[] {
      FilterAll(res.ips, ip => Backed(sec, res, ip));
      var none := Filter(res.ips, ip => !Backed(sec, res, ip));
      assert none != [] ==> none[0] in none;
    } else {
      var min := sec.value.minResolverAgreement.value;
      FilterCongruent(res.ips, ip => Backed(sec, res, ip), ip => Agreed(res.resolverResults, min, ip));
      FilterCongruent(res.ips, ip => !Backed(sec, res, ip), ip => !Agreed(res.resolverResults, min, ip));
    }
  }

  lemma PassesMeaning(parse: Parser, sec: Option<SecuritySpec>)
    ensures forall ip :: Passes(parse, sec, ip) <==> OutsideRanges(parse, sec, ip)
  {
  }

  lemma FiltersMeaning(parse: Parser, sec: Option<SecuritySpec>, res: Resolution)
    ensures Admitted(parse, sec, res) == Surviving(parse, sec, res)
    ensures Blocked(parse, sec, res) == Filter(res.ips, ip => Backed(sec, res, ip) && !OutsideRanges(parse, sec, ip))
  {
    KeptMeaning(sec, res);
    PassesMeaning(parse, sec);
    hide Backed, Passes, OutsideRanges, Kept;
    FilterTwice(res.ips, ip => Backed(sec, res, ip), ip => Passes(parse, sec, ip),
      ip => Backed(sec, res, ip) && OutsideRanges(parse, sec, ip));
    FilterTwice(res.ips, ip => Backed(sec, res, ip), ip => !Passes(parse, sec, ip),
      ip => Backed(sec, res, ip) && !OutsideRanges(parse, sec, ip));
  }

  /** Consensus leaves some address, and all it leaves lie in blocked ranges. */
  ghost predicate AllBlocked(parse: Parser, sec: Option<SecuritySpec>, res: Resolution) {
    && (exists ip | ip in res.ips :: Backed(sec, res, ip))
    && forall ip | ip in res.ips && Backed(sec, res, ip) :: !OutsideRanges(parse, sec, ip)
  }

  /**
   * Failing closed: an answer is not recorded exactly when blocked ranges hold every address that consensus
   * leaves. What is recorded otherwise are the surviving addresses, none only if consensus left none.
   */
  lemma AnswerFailsClosed(
    parse: Parser, scope: Scope, sec: Option<SecuritySpec>, prev: seq<ResolvedHost>, pattern: string, look: Lookup)
    requires look.outcome.Answered? && (scope.Namespaced? ==> '*' !in pattern)
    ensures var res, host := look.outcome.res, RuleEffect(parse, scope, sec, prev, pattern, look).host;
            && (host.None? <==> AllBlocked(parse, sec, res))
            && (host.Some? ==> host.value.ips == Surviving(parse, sec, res))
            && (host.Some? && host.value.ips == [] <==> forall ip | ip in res.ips :: !Backed(sec, res, ip))
  {
    var res := look.outcome.res;
    FiltersMeaning(parse, sec, res);
    hide Admitted, Blocked, Backed, OutsideRanges, ConsensusProblems, RangeProblems, Outvoted, CNAMEProblems;
    var allowed, blocked := Admitted(parse, sec, res), Blocked(parse, sec, res);
    assert allowed != [] ==> allowed[0] in allowed;
    assert blocked != [] ==> blocked[0] in blocked;
  }

  /** An answer with an admitted address is recorded. */
  lemma AnsweredEffect(
    parse: Parser, scope: Scope, sec: Option<SecuritySpec>, prev: seq<ResolvedHost>, pattern: string, look: Lookup)
    requires '*' !in pattern && look.outcome.Answered? && Admitted(parse, sec, look.outcome.res) != []
    ensures RuleEffect(parse, scope, sec, prev, pattern, look).host ==
              Some(RecordedHost(pattern, look, Admitted(parse, sec, look.outcome.res)))
  {
    hide Admitted, Blocked, RecordedHost;
  }

  /** The inputs of one pass: the rules, the previous hosts, and one lookup per rule. */
  datatype Pass = Pass(
    scope: Scope, sec: Option<SecuritySpec>, prev: seq<ResolvedHost>, egress: seq<FQDNRule>, lookups: seq<Lookup>)
  {
    predicate Complete() {
      |lookups| == |egress|
    }

    ghost function At(parse: Parser, i: nat): Effect
      requires Complete() && i < |egress|
    {
      RuleEffect(parse, scope, sec, prev, egress[i].pattern, lookups[i])
    }

    /** The hosts recorded by the first `n` rules. */
    ghost function Hosts(parse: Parser, n: nat): seq<ResolvedHost>
      requires Complete() && n <= |egress|
    {
      if n == 0 then []
      else
        var e := At(parse, n - 1);
        Hosts(parse, n - 1) + if e.host.Some? then [e.host.value] else []
    }

    ghost function Problems(parse: Parser, n: nat): seq<Problem>
      requires Complete() && n <= |egress|
    {
      if n == 0 then [] else Problems(parse, n - 1) + At(parse, n - 1).problems
    }

    ghost function Deadlines(parse: Parser, n: nat): map<string, Time>
      requires Complete() && n <= |egress|
    {
      if n == 0 then map[]
      else
        var e := At(parse, n - 1);
        if e.deadline.Some? then Deadlines(parse, n - 1)[egress[n - 1].pattern := e.deadline.value]
        else Deadlines(parse, n - 1)
    }

    ghost function Resolved(parse: Parser): seq<ResolvedHost>
      requires Complete()
    {
      Hosts(parse, |egress|)
    }
  }

  lemma {:induction false} PreviousRecorded(hosts: seq<ResolvedHost>, hostname: string)
    ensures Previous(hosts, hostname).Some? ==>
              Previous(hosts, hostname).value in hosts && Previous(hosts, hostname).value.hostname == hostname
  {
    if hosts != [] {
      PreviousRecorded(hosts[1..], hostname);
    }
  }

  /** One more rule: its host goes to the end. */
  lemma HostsStep(parse: Parser, p: Pass, n: nat)
    requires p.Complete() && n < |p.egress|
    ensures p.Hosts(parse, n + 1) ==
              if p.At(parse, n).host.Some? then p.Hosts(parse, n) + [p.At(parse, n).host.value] else p.Hosts(parse, n)
  {
  }

  lemma {:induction false} PreviousAppend(hosts: seq<ResolvedHost>, h: ResolvedHost, hostname: string)
    ensures Previous(hosts + [h], hostname) ==
              if Previous(hosts, hostname).Some? then Previous(hosts, hostname)
              else if h.hostname == hostname then Some(h) else None
  {
    if hosts != [] {
      assert (hosts + [h])[1..] == hosts[1..] + [h];
      PreviousAppend(hosts[1..], h, hostname);
    }
  }

  method FindPrevious(hosts: seq<ResolvedHost>, hostname: string) returns (r: Option<ResolvedHost>)
    ensures r == Previous(hosts, hostname)
  {
    for i := 0 to |hosts|
      invariant Previous(hosts, hostname) == Previous(hosts[i..], hostname)
    {
      assert hosts[i..][1..] == hosts[i + 1..];
      if hosts[i].hostname == hostname {
        return Some(hosts[i]);
      }
    }
    return None;
  }

  method ApplyFilters(parse: Parser, sec: Option<SecuritySpec>, pattern: string, res: Resolution)
    returns (allowed: seq<string>, anyBlocked: bool, problems: seq<Problem>)
    ensures allowed == Admitted(parse, sec, res) && (anyBlocked <==> Blocked(parse, sec, res) != [])
    ensures problems == ConsensusProblems(pattern, Outvoted(sec, res))
                        + RangeProblems(pattern, Blocked(parse, sec, res))
  {
    problems := [];
    var consensusIPs := res.ips;
    if sec.Some? && sec.value.minResolverAgreement.Some? {
      var rejected;
      consensusIPs, rejected := FilterByConsensus(res.ips, res.resolverResults, sec.value.minResolverAgreement.value);
      problems := ConsensusProblems(pattern, RejectedTexts(rejected));
    }
    assert problems == ConsensusProblems(pattern, Outvoted(sec, res));
    var blocked;
    allowed, blocked := FilterBlockedIPs(parse, consensusIPs, sec);
    problems := problems + RangeProblems(pattern, BlockedTexts(blocked));
    anyBlocked := |blocked| > 0;
    assert |blocked| == |BlockedTexts(blocked)|;
  }

  /** One iteration of the loop over the rules. */
  method ResolveRule(
    parse: Parser, scope: Scope, sec: Option<SecuritySpec>, prev: seq<ResolvedHost>, pattern: string, look: Lookup
  ) returns (e: Effect)
    ensures e == RuleEffect(parse, scope, sec, prev, pattern, look)
    ensures look.outcome.Answered? && (scope.Namespaced? ==> '*' !in pattern) ==>
              && (e.host.None? <==> AllBlocked(parse, sec, look.outcome.res))
              && (e.host.Some? ==> e.host.value.ips == Surviving(parse, sec, look.outcome.res))
  {
    hide AllBlocked, Surviving, Admitted, Blocked, Outvoted, ConsensusProblems, RangeProblems, CNAMEProblems;
    if scope.Namespaced? && '*' in pattern {
      return Effect(None, [WildcardSkipped(pattern)], None);
    }
    match look.outcome
    case Failed(reason) =>
      var kept := FindPrevious(prev, pattern);
      var deadline := if kept.Some? && scope.Namespaced? then Some(look.at + DEFAULT_POLL_INTERVAL) else None;
      return Effect(kept, [LookupFailed(pattern, reason)], deadline);
    case Answered(res) =>
      AnswerFailsClosed(parse, scope, sec, prev, pattern, look);
      var ttl := if res.ttl == 0 then DEFAULT_POLL_INTERVAL else res.ttl;
      var deadline := Some(look.at + ttl);
      var allowed, anyBlocked, problems := ApplyFilters(parse, sec, pattern, res);
      if |allowed| == 0 && anyBlocked {
        // Every surviving address was in a blocked range: skip the hostname.
        return Effect(None, problems, deadline);
      }
      return Effect(Some(RecordedHost(pattern, look, allowed)),
                    problems + CNAMEProblems(pattern, sec, res.cnameChain), deadline);
  }

  /** The loop over the rules: the same hosts, problems and deadlines as the specification. */
  method ResolveEgress(
    parse: Parser, p: Pass, q: TTLQueue) returns (resolved: seq<ResolvedHost>, problems: seq<Problem>)
    requires p.Complete() && q.Valid() && q.deadlines == map[]
    modifies q, q.entries
    ensures q.Valid() && fresh(q.entries - old(q.entries)) && q.deadlines == p.Deadlines(parse, |p.egress|)
    ensures resolved == p.Resolved(parse) && problems == p.Problems(parse, |p.egress|)
  {
    hide TTLQueue.Valid, RuleEffect;
    resolved, problems := [], [];
    for i := 0 to |p.egress|
      invariant q.Valid() && fresh(q.entries - old(q.entries)) && q.deadlines == p.Deadlines(parse, i)
      invariant resolved == p.Hosts(parse, i) && problems == p.Problems(parse, i)
    {
      var e := ResolveRule(parse, p.scope, p.sec, p.prev, p.egress[i].pattern, p.lookups[i]);
      problems := problems + e.problems;
      if e.deadline.Some? {
        q.Upsert(p.egress[i].pattern, e.deadline.value - p.lookups[i].at, p.lookups[i].at);
      }
      if e.host.Some? {
        resolved := resolved + [e.host.value];
      }
    }
  }
}
