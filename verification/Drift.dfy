/** Observed hostnames that no policy of the namespace covers. */
module Drift {
  import opened Strings
  import opened Hostnames
  import opened Policies
  import opened Observations
  import opened Profiler
  import opened ProfilerTheorems

  /** The texts are compared as they stand: no trimming, no case folding. */
  predicate MatchesEgressRule(hostname: string, pattern: string) {
    hostname == pattern
        || (HasPrefix(pattern, "*.") && (HasSuffix(hostname, "." + pattern[2..]) || hostname == pattern[2..]))
  }

  predicate IsCovered(hostname: string, matches: seq<string>) {
    exists m | m in matches :: MatchesEgressRule(hostname, m)
  }

  type Egress = seq<FQDNRule>

  ghost predicate InSomePolicy(policies: seq<Egress>, pattern: string) {
    exists p, r | p in policies && r in p :: r.pattern == pattern
  }

  /** Some rule of some policy matches the hostname. */
  ghost predicate Policied(policies: seq<Egress>, hostname: string) {
    exists p, r | p in policies && r in p :: MatchesEgressRule(hostname, r.pattern)
  }

  /** The drift list: in strict order, the uncovered hostnames with their sighting times, uncounted. */
  ghost predicate IsDrift(policies: seq<Egress>, observed: Domains, drift: seq<ObservedDomain>) {
    && StrictlySorted(Names(drift))
    && (forall h :: h in Names(drift) <==> h in observed && !Policied(policies, h))
    && forall d | d in drift :: d.hostname in observed && d == Unpolicied(d.hostname, observed[d.hostname])
  }

  function Unpolicied(hostname: string, seen: FirstLastSeen): ObservedDomain {
    ObservedDomain(hostname, seen.firstSeen, seen.lastSeen, 0)
  }

  // ---- the loops ----

  method CollectMatches(policies: seq<Egress>) returns (covered: seq<string>)
    ensures forall m :: m in covered <==> InSomePolicy(policies, m)
  {
    covered := [];
    for i := 0 to |policies|
      invariant forall m :: m in covered <==> InSomePolicy(policies[..i], m)
    {
      var p := policies[i];
      assert policies[..i + 1] == policies[..i] + [p];
      for j := 0 to |p|
        invariant forall m ::
          m in covered <==> InSomePolicy(policies[..i], m) || exists r | r in p[..j] :: r.pattern == m
      {
        assert p[..j + 1] == p[..j] + [p[j]];
        covered := covered + [p[j].pattern];
      }
      assert p[..|p|] == p;
    }
    assert policies[..|policies|] == policies;
  }

  lemma CoveredIsPolicied(policies: seq<Egress>, covered: seq<string>, hostname: string)
    requires forall m :: m in covered <==> InSomePolicy(policies, m)
    ensures IsCovered(hostname, covered) <==> Policied(policies, hostname)
  {
    hide MatchesEgressRule;
    if IsCovered(hostname, covered) {
      var m :| m in covered && MatchesEgressRule(hostname, m);
      assert InSomePolicy(policies, m);
    }
    if Policied(policies, hostname) {
      var p, r :| p in policies && r in p && MatchesEgressRule(hostname, r.pattern);
      assert InSomePolicy(policies, r.pattern);
    }
  }

  /** `policies` is the namespace's list, or none when listing failed. */
  method ComputeUnpoliciedDomains(
    policies: Option<seq<Egress>>, observed: Domains) returns (r: Option<seq<ObservedDomain>>)
    ensures r.Some? <==> policies.Some?
    ensures policies.Some? ==> IsDrift(policies.value, observed, r.value)
    ensures policies.Some? ==> forall d | d in r.value ::
              && d.hostname in observed && d.firstSeen == observed[d.hostname].firstSeen
              && d.lastSeen == observed[d.hostname].lastSeen && d.queryCount == 0
  {
    if policies.None? {
      return None;
    }
    var covered := CollectMatches(policies.value);
    var hostnames := SortedListing(observed.Keys);
    var drift := Uncovered(hostnames, covered, observed);
    forall h { CoveredIsPolicied(policies.value, covered, h); }
    hide StrictlySorted, Policied, IsCovered;
    return Some(drift);
  }

  method Uncovered(hostnames: seq<string>, covered: seq<string>, observed: Domains) returns (drift: seq<ObservedDomain>)
    requires StrictlySorted(hostnames) && forall h :: h in hostnames <==> h in observed
    ensures StrictlySorted(Names(drift))
    ensures forall h :: h in Names(drift) <==> h in observed && !IsCovered(h, covered)
    ensures forall d | d in drift :: d.hostname in observed && d == Unpolicied(d.hostname, observed[d.hostname])
  {
    hide IsCovered;
    drift := [];
    for i := 0 to |hostnames|
      invariant StrictlySorted(Names(drift))
      invariant forall h :: h in Names(drift) <==> h in hostnames[..i] && !IsCovered(h, covered)
      invariant forall d | d in drift :: d.hostname in observed && d == Unpolicied(d.hostname, observed[d.hostname])
    {
      var h := hostnames[i];
      assert hostnames[..i + 1] == hostnames[..i] + [h];
      if !IsCovered(h, covered) {
        var d := Unpolicied(h, observed[h]);
        assert Names(drift + [d]) == Names(drift) + [h];
        PrefixBelow(hostnames, i);
        AppendAbove(Names(drift), h);
        drift := drift + [d];
      }
    }
    assert hostnames[..|hostnames|] == hostnames;
  }

  lemma {:induction false} PrefixBelow(s: seq<string>, i: nat)
    requires StrictlySorted(s) && i < |s|
    ensures forall x | x in s[..i] :: Leq(x, s[i]) && x != s[i]
  {
    if i > 0 {
      PrefixBelow(s[1..], i - 1);
      assert s[..i] == [s[0]] + s[1..][..i - 1] && s[i] == s[1..][i - 1];
    }
  }

  lemma {:induction false} AppendAbove(s: seq<string>, x: string)
    requires StrictlySorted(s) && forall y | y in s :: Leq(y, x) && y != x
    ensures StrictlySorted(s + [x])
  {
    if s != [] {
      AppendAbove(s[1..], x);
      assert (s + [x])[1..] == s[1..] + [x];
    }
  }

  function Absent(previous: seq<ObservedDomain>): ObservedDomain -> bool {
    (d: ObservedDomain) => d.hostname !in Names(previous)
  }

  /** The hostnames of `current` that `previous` does not list, in order. */
  method DiffNewDomains(previous: seq<ObservedDomain>, current: seq<ObservedDomain>) returns (newOnes: seq<string>)
    ensures newOnes == Names(Filter(current, Absent(previous)))
  {
    var prevSet: set<string> := {};
    for i := 0 to |previous|
      invariant forall h :: h in prevSet <==> h in Names(previous)[..i]
    {
      assert Names(previous)[..i + 1] == Names(previous)[..i] + [previous[i].hostname];
      prevSet := prevSet + {previous[i].hostname};
    }
    newOnes := [];
    for i := 0 to |current|
      invariant newOnes == Names(Filter(current[..i], Absent(previous)))
    {
      assert current[..i + 1][..i] == current[..i];
      if current[i].hostname !in prevSet {
        newOnes := newOnes + [current[i].hostname];
      }
    }
    assert current[..|current|] == current;
  }

  /** The status field that a reconcile overwrites with the current drift. */
  class DriftStatus {
    var observedUnpolicied: seq<ObservedDomain>

    /** `observed` is none without the snoop resolver; the result is what is reported as new. */
    method RecordDrift(observed: Option<Domains>, policies: Option<seq<Egress>>) returns (reported: seq<string>)
      modifies this
      ensures observed.None? || policies.None? ==> observedUnpolicied == old(observedUnpolicied) && reported == []
      ensures observed.Some? && policies.Some? ==>
                && IsDrift(policies.value, observed.value, observedUnpolicied)
                && reported == Names(Filter(observedUnpolicied, Absent(old(observedUnpolicied))))
    {
      hide IsDrift;
      if observed.None? {
        return [];
      }
      var drift := ComputeUnpoliciedDomains(policies, observed.value);
      if drift.None? {
        return [];
      }
      reported := DiffNewDomains(observedUnpolicied, drift.value);
      observedUnpolicied := drift.value;
    }
  }

  // ---- what drift means ----

  /** The drift list is determined by the policies and the observations. */
  lemma DriftUnique(policies: seq<Egress>, observed: Domains, a: seq<ObservedDomain>, b: seq<ObservedDomain>)
    requires IsDrift(policies, observed, a) && IsDrift(policies, observed, b)
    ensures a == b
  {
    hide Policied;
    var na, nb := Names(a), Names(b);
    StrictlySortedIsDistinct(na);
    StrictlySortedIsDistinct(nb);
    SameElementsSameMultiset(na, nb);
    StrictIsSorted(na);
    StrictIsSorted(nb);
    SortedUnique(na, nb);
    hide StrictlySorted;
    assert |a| == |na| && |b| == |nb|;
    forall i | 0 <= i < |a| ensures a[i] == b[i] {
      assert a[i] in a && b[i] in b;
      assert na[i] == nb[i];
    }
  }

  lemma {:induction false} StrictIsSorted(s: seq<string>)
    requires StrictlySorted(s)
    ensures Sorted(s)
  {
    if s != [] {
      StrictIsSorted(s[1..]);
    }
  }

  lemma NamedInList(list: seq<ObservedDomain>, d: ObservedDomain)
    requires d in list
    ensures d.hostname in Names(list)
  {
    var i :| 0 <= i < |list| && list[i] == d;
    assert Names(list)[i] == d.hostname;
  }

  /** More policies leave the drift list a filtered one: exactly what the new policies do not match. */
  lemma DriftShrinks(
    first: seq<Egress>, added: seq<Egress>, observed: Domains, before: seq<ObservedDomain>, after: seq<ObservedDomain>)
    requires IsDrift(first, observed, before) && IsDrift(first + added, observed, after)
    ensures forall h :: h in Names(after) <==> h in Names(before) && !Policied(added, h)
    ensures forall d | d in after :: d in before
  {
    hide MatchesEgressRule, StrictlySorted;
    forall h { PoliciedConcat(first, added, h); }
    hide Policied;
    forall d | d in after ensures d in before {
      NamedInList(after, d);
      var j :| 0 <= j < |before| && Names(before)[j] == d.hostname;
      assert before[j] in before;
    }
  }

  lemma PoliciedConcat(a: seq<Egress>, b: seq<Egress>, h: string)
    ensures Policied(a + b, h) <==> Policied(a, h) || Policied(b, h)
  {
    hide MatchesEgressRule;
    forall p ensures p in a + b <==> p in a || p in b { }
  }

  /** A policy empties the drift exactly when it matches every drifted name. */
  lemma EmptiedIffMatched(
    policies: seq<Egress>, added: Egress, observed: Domains, before: seq<ObservedDomain>, after: seq<ObservedDomain>)
    requires IsDrift(policies, observed, before) && IsDrift(policies + [added], observed, after)
    ensures after == [] <==> forall h | h in Names(before) :: exists r | r in added :: MatchesEgressRule(h, r.pattern)
  {
    hide MatchesEgressRule, StrictlySorted;
    DriftShrinks(policies, [added], observed, before, after);
    forall h ensures Policied([added], h) <==> exists r | r in added :: MatchesEgressRule(h, r.pattern) {
      assert added in [added];
    }
    assert |Names(after)| == |after|;
    if after != [] {
      assert Names(after)[0] in Names(after);
    }
  }

  /** One exact rule for each drifted name is enough, whatever ports the rules carry. */
  lemma RulePerNameEmptiesDrift(
    policies: seq<Egress>, added: Egress, observed: Domains, before: seq<ObservedDomain>, after: seq<ObservedDomain>)
    requires IsDrift(policies, observed, before) && IsDrift(policies + [added], observed, after)
    requires Patterns(added) == Names(before)
    ensures after == []
  {
    hide IsDrift;
    EmptiedIffMatched(policies, added, observed, before, after);
    forall h | h in Names(before) ensures exists r | r in added :: MatchesEgressRule(h, r.pattern) {
      var i :| 0 <= i < |added| && Patterns(added)[i] == h;
      assert added[i] in added && added[i].pattern == h;
    }
  }

  // ---- drift against the simulator ----

  /** The simulator's matcher is the drift matcher on normalised texts. */
  lemma MatchersAgree(hostname: string, pattern: string)
    ensures Covers(pattern, hostname) <==> MatchesEgressRule(Norm(hostname), Norm(pattern))
  {
    hide Norm;
  }

  /** Without that the two disagree: the drift matcher is sensitive to letter case. */
  lemma DriftIsCaseSensitive()
    ensures Covers("a.io", "A.io") && !MatchesEgressRule("A.io", "a.io")
  {
    assert TrimSpace("A.io") == "A.io" && TrimSpace("a.io") == "a.io";
    assert ToLower("A.io") == "a.io" && ToLower("a.io") == "a.io";
  }

  predicate AllNormal(rules: Egress) {
    forall r | r in rules :: Norm(r.pattern) == r.pattern && r.pattern != ""
  }

  /**
   * For one policy with normalised rules: a normalised observation drifts exactly when the simulator
   * finds no rule for it; so the simulator's blocked names are the external drift, while internal
   * names, which the simulator sets aside, drift as well.
   */
  lemma DriftIsWhatSimulationBlocks(rules: Egress, observed: Domains, drift: seq<ObservedDomain>, d: ObservedDomain)
    requires IsDrift([rules], observed, drift) && AllNormal(rules)
    requires d.hostname in observed && Norm(d.hostname) == d.hostname
    ensures d.hostname in Names(drift) <==> FirstCover(d.hostname, rules) == ""
    ensures BlockedBy(rules, d) <==> External(d) && d.hostname in Names(drift)
  {
    hide Norm, MatchesEgressRule, StrictlySorted, Covers;
    forall r | r in rules ensures Covers(r.pattern, d.hostname) <==> MatchesEgressRule(d.hostname, r.pattern) {
      MatchersAgree(d.hostname, r.pattern);
    }
    FirstCoverMeaning(d.hostname, rules);
    assert rules in [rules];
  }

  /**
   * Deploying the policy synthesized from what was observed leaves only internal names as drift, and
   * names that were not observed in normal form.
   */
  lemma SynthesisLeavesInternalDrift(
    list: seq<ObservedDomain>, threshold: int, rules: Egress, observed: Domains, drift: seq<ObservedDomain>)
    requires IsSynthesis(list, threshold, rules) && IsDrift([rules], observed, drift)
    requires forall h | h in observed :: h in Names(list)
    ensures forall d | d in drift :: IsInternalDomain(d.hostname) || Norm(d.hostname) != d.hostname
  {
    hide IsSynthesis, IsInternalDomain, Norm, FirstCover, Stable, IsDrift, Covers, MatchesEgressRule;
    forall d | d in drift && Norm(d.hostname) == d.hostname ensures IsInternalDomain(d.hostname) {
      DriftObserved([rules], observed, drift, d);
      var i :| 0 <= i < |list| && Names(list)[i] == d.hostname;
      var o := list[i];
      if External(o) {
        FixedIsStable(o.hostname);
        StableNameAllowed(list, threshold, rules, o);
        var r :| r in rules && Covers(r.pattern, o.hostname) && Norm(r.pattern) == r.pattern;
        MatchersAgree(o.hostname, r.pattern);
        NoDriftIfMatched(rules, observed, drift, d, r);
      }
    }
  }

  lemma NoDriftIfMatched(rules: Egress, observed: Domains, drift: seq<ObservedDomain>, d: ObservedDomain, r: FQDNRule)
    requires IsDrift([rules], observed, drift) && r in rules && MatchesEgressRule(d.hostname, r.pattern)
    ensures d.hostname !in Names(drift)
  {
    hide StrictlySorted, MatchesEgressRule;
    assert rules in [rules];
  }

  lemma FixedIsStable(h: string)
    requires Norm(h) == h
    ensures Stable(h)
  {
    hide Norm;
  }

  lemma DriftObserved(policies: seq<Egress>, observed: Domains, drift: seq<ObservedDomain>, d: ObservedDomain)
    requires IsDrift(policies, observed, drift) && d in drift
    ensures d.hostname in observed && d.hostname in Names(drift)
  {
    hide StrictlySorted, Policied;
    NamedInList(drift, d);
  }
}
