/** What one rule, and a pass over all rules, adds: each field read off the spec, the answers and the recorded hosts. */
module RuleMeanings {
  import opened Strings
  import opened Addresses
  import opened IPFilter
  import opened TTLQueues
  import opened Policies
  import opened ResolutionPass

  // ---- one rule ----

  /** The namespaced controller leaves a wildcard alone: no host and no deadline, only a problem. */
  lemma WildcardSkips(parse: Parser, sec: Option<SecuritySpec>, prev: seq<ResolvedHost>, pattern: string, look: Lookup)
    requires '*' in pattern
    ensures RuleEffect(parse, Namespaced, sec, prev, pattern, look) == Effect(None, [WildcardSkipped(pattern)], None)
  {
  }

  /** The first recorded host of this name. */
  ghost predicate FirstNamed(prev: seq<ResolvedHost>, pattern: string, h: ResolvedHost) {
    exists i | 0 <= i < |prev| ::
      prev[i] == h && h.hostname == pattern && forall j | 0 <= j < i :: prev[j].hostname != pattern
  }

  lemma {:induction false} PreviousMeaning(prev: seq<ResolvedHost>, pattern: string)
    ensures Previous(prev, pattern).None? <==> forall h | h in prev :: h.hostname != pattern
    ensures Previous(prev, pattern).Some? ==> FirstNamed(prev, pattern, Previous(prev, pattern).value)
  {
    if prev != [] {
      PreviousMeaning(prev[1..], pattern);
      assert prev == [prev[0]] + prev[1..];
      if prev[0].hostname != pattern && Previous(prev, pattern).Some? {
        var i :| 0 <= i < |prev| - 1 && prev[1..][i] == Previous(prev, pattern).value
            && forall j | 0 <= j < i :: prev[1..][j].hostname != pattern;
        assert prev[i + 1] == prev[1..][i];
        forall j | 0 <= j < i + 1 ensures prev[j].hostname != pattern {
          assert j > 0 ==> prev[j] == prev[1..][j - 1];
        }
      }
    }
  }

  /**
   * A failed lookup keeps the first recorded host of that name, if there is one, and the namespaced controller
   * then looks again after a minute.
   */
  lemma FailureKeeps(
    parse: Parser, scope: Scope, sec: Option<SecuritySpec>, prev: seq<ResolvedHost>, pattern: string, look: Lookup)
    requires look.outcome.Failed? && (scope.Namespaced? ==> '*' !in pattern)
    ensures var e := RuleEffect(parse, scope, sec, prev, pattern, look);
            && (e.host.None? <==> forall h | h in prev :: h.hostname != pattern)
            && (e.host.Some? ==> FirstNamed(prev, pattern, e.host.value))
            && e.problems == [LookupFailed(pattern, look.outcome.reason)]
            && e.deadline == if e.host.Some? && scope.Namespaced? then Some(look.at + 60_000_000_000) else None
  {
    PreviousMeaning(prev, pattern);
    hide Previous, FirstNamed;
  }

  /** An answer, recorded or not, is due again after its TTL, or after a minute when it has none. */
  lemma AnswerDeadline(
    parse: Parser, scope: Scope, sec: Option<SecuritySpec>, prev: seq<ResolvedHost>, pattern: string, look: Lookup)
    requires look.outcome.Answered? && (scope.Namespaced? ==> '*' !in pattern)
    ensures var ttl := look.outcome.res.ttl;
            RuleEffect(parse, scope, sec, prev, pattern, look).deadline
            == Some(look.at + if ttl == 0 then 60_000_000_000 else ttl)
  {
    hide Admitted, Blocked, Outvoted, ConsensusProblems, RangeProblems, CNAMEProblems, RecordedHost;
  }

  /** `n` is `ttl` in seconds, rounded toward zero. */
  predicate RoundsTo(ttl: int, n: int) {
    if ttl >= 0 then n * 1_000_000_000 <= ttl < (n + 1) * 1_000_000_000
    else (n - 1) * 1_000_000_000 < ttl <= n * 1_000_000_000
  }

  /** What is recorded beside the addresses. */
  lemma AnswerRecords(
    parse: Parser, scope: Scope, sec: Option<SecuritySpec>, prev: seq<ResolvedHost>, pattern: string, look: Lookup)
    requires look.outcome.Answered? && RuleEffect(parse, scope, sec, prev, pattern, look).host.Some?
    ensures var res, h := look.outcome.res, RuleEffect(parse, scope, sec, prev, pattern, look).host.value;
            && h.hostname == pattern && h.lastSeen == look.at && h.cnameChain == res.cnameChain
            && (if res.ttl == 0 then h.ttlSeconds == 60 else RoundsTo(res.ttl, h.ttlSeconds))
            && h.security.dnssecValidated == res.dnssecValidated
            && h.security.ipChurnRate == look.churn
            && h.security.resolverDivergence == res.resolverDivergence
            && (res.resolverDivergence > 0 ==> h.security.resolverResults == res.resolverResults)
            && (res.resolverDivergence <= 0 ==> h.security.resolverResults == map[])
            && (h.security.shortTTL <==> 0 < res.ttl < 10_000_000_000)
  {
    hide Admitted, Blocked, Outvoted, ConsensusProblems, RangeProblems, CNAMEProblems;
  }

  lemma TextProblems(pattern: string, ips: seq<string>, x: Problem)
    ensures x in ConsensusProblems(pattern, ips) <==> exists ip | ip in ips :: x == ConsensusBlocked(pattern, ip)
    ensures x in RangeProblems(pattern, ips) <==> exists ip | ip in ips :: x == RangeBlocked(pattern, ip)
  {
    forall i | 0 <= i < |ips|
      ensures ConsensusProblems(pattern, ips)[i] == ConsensusBlocked(pattern, ips[i]) && ips[i] in ips
      ensures RangeProblems(pattern, ips)[i] == RangeBlocked(pattern, ips[i])
      ensures ConsensusProblems(pattern, ips)[i] in ConsensusProblems(pattern, ips)
      ensures RangeProblems(pattern, ips)[i] in RangeProblems(pattern, ips)
    {
    }
  }

  /** The answer has an alias chain longer than the spec allows; a limit of zero or below allows any. */
  predicate TooDeep(sec: Option<SecuritySpec>, res: Resolution) {
    && sec.Some? && sec.value.maxCNAMEDepth.Some?
    && 0 < sec.value.maxCNAMEDepth.value < |res.cnameChain|
  }

  /**
   * The problems of an answer: each outvoted address, each blocked one of the others, and, for a recorded
   * host, a chain beyond the limit.
   */
  lemma AnswerProblems(
    parse: Parser, scope: Scope, sec: Option<SecuritySpec>, prev: seq<ResolvedHost>, pattern: string, look: Lookup,
    x: Problem)
    requires look.outcome.Answered? && (scope.Namespaced? ==> '*' !in pattern)
    ensures var res, e := look.outcome.res, RuleEffect(parse, scope, sec, prev, pattern, look);
            x in e.problems <==>
              || (exists ip | ip in res.ips && !Backed(sec, res, ip) :: x == ConsensusBlocked(pattern, ip))
              || (exists ip | ip in res.ips && Backed(sec, res, ip) && !OutsideRanges(parse, sec, ip) ::
                    x == RangeBlocked(pattern, ip))
              || (e.host.Some? && TooDeep(sec, res)
                  && x == CNAMETooDeep(pattern, |res.cnameChain|, sec.value.maxCNAMEDepth.value))
  {
    ProblemParts(parse, scope, sec, prev, pattern, look);
    OutvotedProblems(sec, pattern, look.outcome.res, x);
    BlockedProblems(parse, sec, pattern, look.outcome.res, x);
    hide RuleEffect, Blocked, Outvoted, ConsensusProblems, RangeProblems, Backed, OutsideRanges;
  }

  lemma ProblemParts(
    parse: Parser, scope: Scope, sec: Option<SecuritySpec>, prev: seq<ResolvedHost>, pattern: string, look: Lookup)
    requires look.outcome.Answered? && (scope.Namespaced? ==> '*' !in pattern)
    ensures var res, e := look.outcome.res, RuleEffect(parse, scope, sec, prev, pattern, look);
            e.problems == ConsensusProblems(pattern, Outvoted(sec, res))
                          + RangeProblems(pattern, Blocked(parse, sec, res))
                          + if e.host.Some? then CNAMEProblems(pattern, sec, res.cnameChain) else []
  {
    hide Admitted, Blocked, Outvoted, ConsensusProblems, RangeProblems, CNAMEProblems, RecordedHost;
  }

  lemma OutvotedProblems(sec: Option<SecuritySpec>, pattern: string, res: Resolution, x: Problem)
    ensures x in ConsensusProblems(pattern, Outvoted(sec, res))
            <==> exists ip | ip in res.ips && !Backed(sec, res, ip) :: x == ConsensusBlocked(pattern, ip)
  {
    KeptMeaning(sec, res);
    hide Outvoted, Kept, ConsensusProblems, RangeProblems, Backed;
    TextProblems(pattern, Outvoted(sec, res), x);
  }

  lemma BlockedProblems(parse: Parser, sec: Option<SecuritySpec>, pattern: string, res: Resolution, x: Problem)
    ensures x in RangeProblems(pattern, Blocked(parse, sec, res))
            <==> exists ip | ip in res.ips && Backed(sec, res, ip) && !OutsideRanges(parse, sec, ip) ::
                   x == RangeBlocked(pattern, ip)
  {
    FiltersMeaning(parse, sec, res);
    hide Admitted, Surviving, Blocked, ConsensusProblems, RangeProblems, Backed, OutsideRanges;
    TextProblems(pattern, Blocked(parse, sec, res), x);
  }

  // ---- all rules ----

  /** The hosts of a pass are what its rules record, and nothing else. */
  lemma {:induction false} HostsOfRules(parse: Parser, p: Pass, n: nat, h: ResolvedHost)
    requires p.Complete() && n <= |p.egress|
    ensures h in p.Hosts(parse, n) <==> exists i | 0 <= i < n :: p.At(parse, i).host == Some(h)
  {
    hide RuleEffect, Pass.At;
    if n > 0 {
      HostsOfRules(parse, p, n - 1, h);
      HostsStep(parse, p, n - 1);
    }
  }

  /** So are its problems. */
  lemma {:induction false} ProblemsOfRules(parse: Parser, p: Pass, n: nat, x: Problem)
    requires p.Complete() && n <= |p.egress|
    ensures x in p.Problems(parse, n) <==> exists i | 0 <= i < n :: x in p.At(parse, i).problems
  {
    hide RuleEffect, Pass.At;
    if n > 0 {
      ProblemsOfRules(parse, p, n - 1, x);
      assert p.Problems(parse, n) == p.Problems(parse, n - 1) + p.At(parse, n - 1).problems;
    }
  }

  /** Rule `i` is the last of the first `n` that sets a deadline for this hostname. */
  ghost predicate SetsLast(parse: Parser, p: Pass, n: nat, i: nat, h: string)
    requires p.Complete() && n <= |p.egress|
  {
    && i < n && p.egress[i].pattern == h && p.At(parse, i).deadline.Some?
    && forall j | i < j < n :: p.egress[j].pattern == h ==> p.At(parse, j).deadline.None?
  }

  lemma SetsLastStep(parse: Parser, p: Pass, n: nat, h: string)
    requires p.Complete() && n <= |p.egress|
    ensures forall i: nat :: SetsLast(parse, p, n, i, h) <==>
              if n > 0 && p.egress[n - 1].pattern == h && p.At(parse, n - 1).deadline.Some? then i == n - 1
              else n > 0 && SetsLast(parse, p, n - 1, i, h)
  {
    hide RuleEffect, Pass.At;
  }

  lemma SetsLastBound(parse: Parser, p: Pass, n: nat, h: string)
    requires p.Complete() && n <= |p.egress|
    ensures forall i: nat | SetsLast(parse, p, n, i, h) :: i < n
  {
  }

  /** The tracked deadline of a hostname is that of the last rule that sets one for it. */
  lemma {:induction false} DeadlinesOfRules(parse: Parser, p: Pass, n: nat, h: string)
    requires p.Complete() && n <= |p.egress|
    ensures h in p.Deadlines(parse, n) <==> exists i: nat :: SetsLast(parse, p, n, i, h)
    ensures forall i: nat | SetsLast(parse, p, n, i, h) ::
              i < n && h in p.Deadlines(parse, n) && p.At(parse, i).deadline == Some(p.Deadlines(parse, n)[h])
  {
    hide RuleEffect, Pass.At, SetsLast;
    SetsLastStep(parse, p, n, h);
    SetsLastBound(parse, p, n, h);
    if n > 0 {
      DeadlinesOfRules(parse, p, n - 1, h);
      var e := p.At(parse, n - 1);
      assert p.Deadlines(parse, n) == if e.deadline.Some?
          then p.Deadlines(parse, n - 1)[p.egress[n - 1].pattern := e.deadline.value] else p.Deadlines(parse, n - 1);
      hide Pass.Deadlines;
      if p.egress[n - 1].pattern == h && e.deadline.Some? {
        assert SetsLast(parse, p, n, n - 1, h);
      } else if h in p.Deadlines(parse, n) {
        var i: nat :| SetsLast(parse, p, n - 1, i, h);
        assert SetsLast(parse, p, n, i, h);
      }
    }
  }
}
