/** From observed hostnames to egress rules, and the separate evaluator that simulates a policy. */
module Profiler {
  import opened Strings
  import opened Hostnames
  import opened Policies
  import opened Observations

  // ---- filter.go ----

  const INTERNAL_SUFFIXES: seq<string> := [
    ".cluster.local", ".cluster.local.", ".svc", ".svc.", ".local", ".local.", ".internal", ".internal.",
    ".in-addr.arpa", ".in-addr.arpa.", ".ip6.arpa", ".ip6.arpa."]

  const INTERNAL_NAMES: set<string> := {
    "kubernetes", "kubernetes.default", "kubernetes.default.svc", "localhost", "localhost.localdomain",
    "ip6-localhost", "ip6-loopback", "metadata.google.internal", "169.254.169.254"}

  predicate IsInternalDomain(hostname: string) {
    var h := ToLower(TrimSpace(hostname));
    || h == ""
    || h in INTERNAL_NAMES
    || (exists s | s in INTERNAL_SUFFIXES :: HasSuffix(h, s))
    || '.' !in TrimDot(h)
  }

  predicate Internal(d: ObservedDomain) {
    IsInternalDomain(d.hostname)
  }

  predicate External(d: ObservedDomain) {
    !IsInternalDomain(d.hostname)
  }

  method FilterDomains(
    domains: seq<ObservedDomain>) returns (external: seq<ObservedDomain>, internal: seq<ObservedDomain>)
    ensures external == Filter(domains, External) && internal == Filter(domains, Internal)
  {
    external, internal := [], [];
    for i := 0 to |domains|
      invariant external == Filter(domains[..i], External) && internal == Filter(domains[..i], Internal)
    {
      assert domains[..i + 1][..i] == domains[..i];
      if IsInternalDomain(domains[i].hostname) {
        internal := internal + [domains[i]];
      } else {
        external := external + [domains[i]];
      }
    }
    assert domains[..|domains|] == domains;
  }

  // ---- cluster.go: what the clustering means ----

  /** The distinct non-empty normalised names. */
  function Distinct(domains: seq<string>): set<string> {
    (set d | d in domains :: Norm(d)) - {""}
  }

  function Subdomains(domains: seq<string>, base: string): set<string> {
    set s | s in Distinct(domains) && BaseDomain(s) == base
  }

  function Bases(domains: seq<string>): set<string> {
    set s | s in Distinct(domains) :: BaseDomain(s)
  }

  predicate IsWildcard(s: string) {
    HasPrefix(s, "*.")
  }

  /** A base domain becomes a wildcard: a member is one already, or there are enough members. */
  predicate RolledUp(domains: seq<string>, threshold: int, base: string) {
    threshold > 1
        && ((exists s | s in Subdomains(domains, base) :: IsWildcard(s)) || |Subdomains(domains, base)| >= threshold)
  }

  ghost predicate IsRule(domains: seq<string>, threshold: int, rule: string) {
    || (exists base | base in Bases(domains) :: RolledUp(domains, threshold, base) && rule == "*." + base)
    || (rule in Distinct(domains) && !RolledUp(domains, threshold, BaseDomain(rule)))
  }

  // ---- cluster.go: the loops ----

  method UniqueNames(domains: seq<string>) returns (unique: set<string>)
    ensures unique == Distinct(domains)
  {
    unique := {};
    for i := 0 to |domains|
      invariant unique == Distinct(domains[..i])
    {
      DistinctStep(domains, i);
      var d := Norm(domains[i]);
      if d != "" {
        unique := unique + {d};
      }
    }
    assert domains[..|domains|] == domains;
  }

  lemma DistinctStep(domains: seq<string>, i: nat)
    requires i < |domains|
    ensures Distinct(domains[..i + 1]) == Distinct(domains[..i]) + ({Norm(domains[i])} - {""})
  {
    assert domains[..i + 1] == domains[..i] + [domains[i]];
  }

  /** The keys of a Go map used as a set, sorted. */
  method SortedListing(elements: set<string>) returns (list: seq<string>)
    ensures StrictlySorted(list) && |list| == |elements| && forall x :: x in list <==> x in elements
  {
    list := [];
    var todo := elements;
    while todo != {}
      invariant todo <= elements && NoDuplicates(list) && |list| + |todo| == |elements|
      invariant forall x :: x in list <==> x in elements - todo
      decreases todo
    {
      var x :| x in todo;
      AppendFresh(list, x);
      todo := todo - {x};
      list := list + [x];
    }
    SortDistinct(list);
    list := Sort(list);
  }

  type Groups = map<string, seq<string>>

  ghost predicate Grouped(domains: seq<string>, byBase: Groups) {
    && byBase.Keys == Bases(domains)
    && forall base | base in byBase :: forall s :: s in byBase[base] <==> s in Subdomains(domains, base)
  }

  method GroupByBase(domains: seq<string>) returns (byBase: Groups)
    ensures Grouped(domains, byBase)
  {
    byBase := map[];
    for i := 0 to |domains|
      invariant Grouped(domains[..i], byBase)
    {
      DistinctStep(domains, i);
      var d := Norm(domains[i]);
      if d == "" {
        assert Distinct(domains[..i + 1]) == Distinct(domains[..i]);
        continue;
      }
      var base := BaseDomain(d);
      GroupStep(domains, i, byBase);
      byBase := byBase[base := (if base in byBase then byBase[base] else []) + [d]];
    }
    assert domains[..|domains|] == domains;
  }

  lemma GroupStep(domains: seq<string>, i: nat, byBase: Groups)
    requires i < |domains| && Grouped(domains[..i], byBase) && Norm(domains[i]) != ""
    ensures var d, base := Norm(domains[i]), BaseDomain(Norm(domains[i]));
            Grouped(domains[..i + 1], byBase[base := (if base in byBase then byBase[base] else []) + [d]])
  {
    var d, base := Norm(domains[i]), BaseDomain(Norm(domains[i]));
    forall b { SubdomainsStep(domains, i, b); }
    GroupInsert(domains[..i], domains[..i + 1], byBase, base, d);
  }

  lemma GroupInsert(less: seq<string>, more: seq<string>, byBase: Groups, base: string, d: string)
    requires Grouped(less, byBase) && Bases(more) == Bases(less) + {base}
    requires forall b :: Subdomains(more, b) == Subdomains(less, b) + (if b == base then {d} else {})
    requires base !in Bases(less) ==> Subdomains(less, base) == {}
    ensures Grouped(more, byBase[base := (if base in byBase then byBase[base] else []) + [d]])
  {
    hide Subdomains, Bases;
  }

  lemma SubdomainsStep(domains: seq<string>, i: nat, b: string)
    requires i < |domains| && Norm(domains[i]) != ""
    ensures var d, base := Norm(domains[i]), BaseDomain(Norm(domains[i]));
            && Bases(domains[..i + 1]) == Bases(domains[..i]) + {base}
            && Subdomains(domains[..i + 1], b) == Subdomains(domains[..i], b) + (if b == base then {d} else {})
            && (b !in Bases(domains[..i]) ==> Subdomains(domains[..i], b) == {})
  {
    hide Norm, BaseDomain, Distinct;
    DistinctStep(domains, i);
    OneMoreName(domains[..i], domains[..i + 1], Norm(domains[i]), b);
  }

  lemma OneMoreName(less: seq<string>, more: seq<string>, d: string, b: string)
    requires Distinct(more) == Distinct(less) + {d}
    ensures Bases(more) == Bases(less) + {BaseDomain(d)}
    ensures Subdomains(more, b) == Subdomains(less, b) + (if b == BaseDomain(d) then {d} else {})
    ensures b !in Bases(less) ==> Subdomains(less, b) == {}
  {
    hide Norm, BaseDomain, Distinct;
  }

  /** A list as a set, as the source does with a map. */
  method AsSet(list: seq<string>) returns (unique: set<string>)
    ensures forall s :: s in unique <==> s in list
  {
    unique := {};
    for i := 0 to |list|
      invariant forall s :: s in unique <==> s in list[..i]
    {
      assert list[..i + 1] == list[..i] + [list[i]];
      unique := unique + {list[i]};
    }
    assert list[..|list|] == list;
  }

  method HasExplicitWildcard(list: seq<string>) returns (found: bool)
    ensures found <==> exists s | s in list :: IsWildcard(s)
  {
    for i := 0 to |list|
      invariant forall k | 0 <= k < i :: !IsWildcard(list[k])
    {
      if IsWildcard(list[i]) {
        assert list[i] in list;
        return true;
      }
    }
    return false;
  }

  /** The member list of one group, and whether it is rolled up. */
  method ClusterGroup(domains: seq<string>, threshold: int, base: string, subs: seq<string>)
    returns (subList: seq<string>, rolled: bool)
    requires threshold > 1 && forall s :: s in subs <==> s in Subdomains(domains, base)
    ensures IsMemberList(domains, base, subList)
    ensures rolled <==> RolledUp(domains, threshold, base)
  {
    hide Subdomains, StrictlySorted;
    var uniqueSubs := AsSet(subs);
    assert uniqueSubs == Subdomains(domains, base);
    subList := SortedListing(uniqueSubs);
    var explicit := HasExplicitWildcard(subList);
    rolled := explicit || |subList| >= threshold;
  }

  /** All members of a group, once each, in order. */
  ghost predicate IsMemberList(domains: seq<string>, base: string, list: seq<string>) {
    && StrictlySorted(list) && |list| == |Subdomains(domains, base)|
    && forall s :: s in list <==> s in Subdomains(domains, base)
  }

  datatype ClusterResult = ClusterResult(rules: seq<string>, wildcardClusters: map<string, seq<string>>)

  ghost predicate IsClustering(domains: seq<string>, threshold: int, r: ClusterResult) {
    && StrictlySorted(r.rules)
    && (forall x :: x in r.rules <==> IsRule(domains, threshold, x))
    && ClustersOf(domains, threshold, Bases(domains), r.wildcardClusters)
  }

  method ClusterWildcards(domains: seq<string>, threshold: int) returns (r: ClusterResult)
    ensures IsClustering(domains, threshold, r)
  {
    if threshold <= 1 {
      var unique := UniqueNames(domains);
      var rules := SortedListing(unique);
      return ClusterResult(rules, map[]);
    }
    var byBase := GroupByBase(domains);
    var rules, clusters := ClusterAll(domains, threshold, byBase);
    SortDistinct(rules);
    r := ClusterResult(Sort(rules), clusters);
  }

  /** The rules that the groups of the given bases contribute. */
  ghost predicate RuleOf(domains: seq<string>, threshold: int, bases: set<string>, rule: string) {
    || (exists base | base in bases :: RolledUp(domains, threshold, base) && rule == "*." + base)
    || (rule in Distinct(domains) && BaseDomain(rule) in bases && !RolledUp(domains, threshold, BaseDomain(rule)))
  }

  ghost predicate ClustersOf(
    domains: seq<string>, threshold: int, bases: set<string>, clusters: map<string, seq<string>>) {
    && (forall w ::
          w in clusters <==> exists base | base in bases :: RolledUp(domains, threshold, base) && w == "*." + base)
    && forall base | base in bases && RolledUp(domains, threshold, base) ::
         "*." + base in clusters && IsMemberList(domains, base, clusters["*." + base])
  }

  /** The loop over the groups, in any order. */
  method ClusterAll(domains: seq<string>, threshold: int, byBase: Groups)
    returns (rules: seq<string>, clusters: map<string, seq<string>>)
    requires threshold > 1 && Grouped(domains, byBase)
    ensures NoDuplicates(rules) && (forall x :: x in rules <==> IsRule(domains, threshold, x))
    ensures ClustersOf(domains, threshold, Bases(domains), clusters)
  {
    hide Bases, RuleOf, ClustersOf;
    rules, clusters := [], map[];
    var todo := byBase.Keys;
    NoGroupsYet(domains, threshold);
    assert byBase.Keys - todo == {};
    while todo != {}
      invariant todo <= byBase.Keys
      invariant NoDuplicates(rules) && forall x :: x in rules <==> RuleOf(domains, threshold, byBase.Keys - todo, x)
      invariant ClustersOf(domains, threshold, byBase.Keys - todo, clusters)
      decreases todo
    {
      var base :| base in todo;
      rules, clusters := AddGroup(domains, threshold, byBase.Keys - todo, base, byBase[base], rules, clusters);
      assert byBase.Keys - (todo - {base}) == byBase.Keys - todo + {base};
      todo := todo - {base};
    }
    assert byBase.Keys - todo == Bases(domains);
    AllBasesAllRules(domains, threshold);
  }

  lemma NoGroupsYet(domains: seq<string>, threshold: int)
    ensures forall x :: !RuleOf(domains, threshold, {}, x)
    ensures ClustersOf(domains, threshold, {}, map[])
  {
  }

  /** One iteration over the groups. */
  method AddGroup(
    domains: seq<string>, threshold: int, ghost done: set<string>, base: string, subs: seq<string>,
    rules: seq<string>, clusters: map<string, seq<string>>
  ) returns (newRules: seq<string>, newClusters: map<string, seq<string>>)
    requires threshold > 1 && base !in done && forall s :: s in subs <==> s in Subdomains(domains, base)
    requires NoDuplicates(rules) && forall x :: x in rules <==> RuleOf(domains, threshold, done, x)
    requires ClustersOf(domains, threshold, done, clusters)
    ensures NoDuplicates(newRules) && forall x :: x in newRules <==> RuleOf(domains, threshold, done + {base}, x)
    ensures ClustersOf(domains, threshold, done + {base}, newClusters)
  {
    hide RolledUp, Subdomains, RuleOf, IsMemberList, ClustersOf;
    var subList, rolled := ClusterGroup(domains, threshold, base, subs);
    RuleStep(domains, threshold, done, base);
    ClustersStep(domains, threshold, done, base, clusters, subList);
    MemberListMeaning(domains, base, subList);
    if rolled {
      var wildcard := "*." + base;
      AppendFresh(rules, wildcard);
      return rules + [wildcard], clusters[wildcard := subList];
    }
    AppendDisjoint(rules, subList);
    return rules + subList, clusters;
  }

  lemma AllBasesAllRules(domains: seq<string>, threshold: int)
    ensures forall x :: RuleOf(domains, threshold, Bases(domains), x) <==> IsRule(domains, threshold, x)
  {
  }

  lemma MemberListMeaning(domains: seq<string>, base: string, list: seq<string>)
    requires IsMemberList(domains, base, list)
    ensures NoDuplicates(list) && forall s :: s in list <==> s in Subdomains(domains, base)
  {
    StrictlySortedIsDistinct(list);
  }

  lemma WildcardInjective(a: string, b: string)
    ensures "*." + a == "*." + b ==> a == b
  {
    assert ("*." + a)[2..] == a && ("*." + b)[2..] == b;
  }

  lemma ClustersStep(
    domains: seq<string>, threshold: int, done: set<string>, base: string, clusters: map<string, seq<string>>,
    list: seq<string>)
    requires ClustersOf(domains, threshold, done, clusters) && IsMemberList(domains, base, list)
    ensures ClustersOf(domains, threshold, done + {base},
                       if RolledUp(domains, threshold, base) then clusters["*." + base := list] else clusters)
  {
    hide RolledUp, IsMemberList;
    forall b { WildcardInjective(b, base); }
  }

  /** What one more group adds to the rules, none of which the earlier groups contributed. */
  lemma RuleStep(domains: seq<string>, threshold: int, done: set<string>, base: string)
    requires base !in done && threshold > 1
    ensures forall x :: RuleOf(domains, threshold, done + {base}, x) <==>
              RuleOf(domains, threshold, done, x)
              || (if RolledUp(domains, threshold, base) then x == "*." + base else x in Subdomains(domains, base))
    ensures RolledUp(domains, threshold, base) ==> !RuleOf(domains, threshold, done, "*." + base)
    ensures !RolledUp(domains, threshold, base) ==>
              forall x | x in Subdomains(domains, base) :: !RuleOf(domains, threshold, done, x)
  {
    forall b { WildcardInjective(b, base); }
    if RolledUp(domains, threshold, base) {
      WildcardNotExact(domains, threshold, "*." + base);
    }
    forall x | x in Subdomains(domains, base) && !RolledUp(domains, threshold, base)
      ensures !RuleOf(domains, threshold, done, x)
    {
      assert !IsWildcard(x);
    }
  }

  /** An exact rule never looks like a wildcard: its group would have been rolled up. */
  lemma WildcardNotExact(domains: seq<string>, threshold: int, x: string)
    requires threshold > 1 && IsWildcard(x)
    ensures !(x in Distinct(domains) && !RolledUp(domains, threshold, BaseDomain(x)))
  {
    if x in Distinct(domains) {
      assert x in Subdomains(domains, BaseDomain(x));
    }
  }

  // ---- synthesizer.go ----

  datatype ProfileSummary = ProfileSummary(
    totalObserved: nat, internalIgnored: nat, externalAllowed: nat, rulesGenerated: nat, wildcardsGenerated: nat,
    wildcardRollups: map<string, seq<string>>)

  ghost predicate IsSummary(observed: seq<ObservedDomain>, threshold: int, egress: seq<FQDNRule>, s: ProfileSummary) {
    && s.totalObserved == |observed| && s.rulesGenerated == |egress|
    && s.internalIgnored == |Filter(observed, Internal)| && s.externalAllowed == |Filter(observed, External)|
    && s.wildcardsGenerated == |s.wildcardRollups|
    && var domains := Names(Filter(observed, External));
       ClustersOf(domains, EffectiveThreshold(threshold), Bases(domains), s.wildcardRollups)
  }

  /** Thresholds of zero and below fall back to three. */
  function EffectiveThreshold(threshold: int): int {
    if threshold <= 0 then 3 else threshold
  }

  const WEB_PORTS: seq<PolicyPort> := [PolicyPort("TCP", 443)]

  /** The rule list has, in strict order, exactly the clustering's rules, each with port 443. */
  ghost predicate IsSynthesis(observed: seq<ObservedDomain>, threshold: int, rules: seq<FQDNRule>) {
    && StrictlySorted(Patterns(rules))
    && (forall r | r in rules :: r.ports == WEB_PORTS)
    && forall x :: x in Patterns(rules) <==> IsRule(Names(Filter(observed, External)), EffectiveThreshold(threshold), x)
  }

  function Patterns(rules: seq<FQDNRule>): (r: seq<string>)
    ensures |r| == |rules| && forall i | 0 <= i < |rules| :: r[i] == rules[i].pattern
  {
    seq(|rules|, i requires 0 <= i < |rules| => rules[i].pattern)
  }

  method SynthesizePolicy(
    observed: seq<ObservedDomain>, threshold: int) returns (egress: seq<FQDNRule>, summary: ProfileSummary)
    ensures IsSynthesis(observed, threshold, egress)
    ensures IsSummary(observed, threshold, egress, summary)
  {
    hide IsRule, IsClustering, ClustersOf;
    var limit := if threshold <= 0 then 3 else threshold;
    var external, internal := FilterDomains(observed);
    var domainNames := DomainNames(external);
    var res := ClusterWildcards(domainNames, limit);
    egress := RulesFor(res.rules);
    ClusteringMeaning(domainNames, limit, res);
    summary := ProfileSummary(|observed|, |internal|, |external|, |res.rules|, |res.wildcardClusters|,
        res.wildcardClusters);
  }

  lemma ClusteringMeaning(domains: seq<string>, threshold: int, r: ClusterResult)
    requires IsClustering(domains, threshold, r)
    ensures StrictlySorted(r.rules) && forall x :: x in r.rules <==> IsRule(domains, threshold, x)
    ensures ClustersOf(domains, threshold, Bases(domains), r.wildcardClusters)
  {
  }

  method DomainNames(list: seq<ObservedDomain>) returns (names: seq<string>)
    ensures names == Names(list)
  {
    names := [];
    for i := 0 to |list|
      invariant names == Names(list)[..i]
    {
      names := names + [list[i].hostname];
    }
  }

  method RulesFor(patterns: seq<string>) returns (egress: seq<FQDNRule>)
    ensures Patterns(egress) == patterns && forall r | r in egress :: r.ports == WEB_PORTS
  {
    egress := [];
    for i := 0 to |patterns|
      invariant |egress| == i && forall k | 0 <= k < i :: egress[k] == FQDNRule(patterns[k], WEB_PORTS)
    {
      egress := egress + [FQDNRule(patterns[i], WEB_PORTS)];
    }
    assert Patterns(egress) == patterns;
  }

  // ---- simulator.go ----

  /** A rule covers a hostname, after both are normalised. */
  predicate Covers(pattern: string, hostname: string) {
    var h, m := Norm(hostname), Norm(pattern);
    h == m || (HasPrefix(m, "*.") && (HasSuffix(h, "." + m[2..]) || h == m[2..]))
  }

  /** The pattern of the first covering rule; empty when there is none, or that pattern is itself empty. */
  function FirstCover(hostname: string, rules: seq<FQDNRule>): string {
    if rules == [] then ""
    else if Covers(rules[0].pattern, hostname) then rules[0].pattern
    else FirstCover(hostname, rules[1..])
  }

  method FindMatchingRule(hostname: string, rules: seq<FQDNRule>) returns (r: string)
    ensures r == FirstCover(hostname, rules)
  {
    var h := Norm(hostname);
    for i := 0 to |rules|
      invariant FirstCover(hostname, rules) == FirstCover(hostname, rules[i..])
    {
      assert rules[i..][1..] == rules[i + 1..];
      var m := Norm(rules[i].pattern);
      if h == m {
        return rules[i].pattern;
      }
      if HasPrefix(m, "*.") {
        var suffix := m[2..];
        if HasSuffix(h, "." + suffix) || h == suffix {
          return rules[i].pattern;
        }
      }
    }
    return "";
  }

  lemma {:induction false} FirstCoverMeaning(hostname: string, rules: seq<FQDNRule>)
    requires forall r | r in rules :: r.pattern != ""
    ensures FirstCover(hostname, rules) != "" <==> exists r | r in rules :: Covers(r.pattern, hostname)
    ensures FirstCover(hostname, rules) != "" ==>
              exists i | 0 <= i < |rules| ::
                && rules[i].pattern == FirstCover(hostname, rules) && Covers(rules[i].pattern, hostname)
                && forall j | 0 <= j < i :: !Covers(rules[j].pattern, hostname)
  {
    hide Covers;
    if rules != [] {
      FirstCoverMeaning(hostname, rules[1..]);
      assert rules == [rules[0]] + rules[1..];
      if !Covers(rules[0].pattern, hostname) && FirstCover(hostname, rules) != "" {
        var i :| 0 <= i < |rules| - 1 && rules[1..][i].pattern == FirstCover(hostname, rules)
            && Covers(rules[1..][i].pattern, hostname)
            && forall j | 0 <= j < i :: !Covers(rules[1..][j].pattern, hostname);
        assert rules[i + 1] == rules[1..][i];
        forall j | 0 <= j < i + 1 ensures !Covers(rules[j].pattern, hostname) {
          assert j > 0 ==> rules[j] == rules[1..][j - 1];
        }
      }
    }
  }

  /** The lists of the report; `matchedBy` names the rule that allows each allowed name. */
  datatype SimulationReport = SimulationReport(
    totalObserved: nat, allowed: seq<ObservedDomain>, matchedBy: seq<string>, blocked: seq<ObservedDomain>,
    internal: seq<ObservedDomain>, allowedCount: nat, blockedCount: nat, internalCount: nat, hasRisk: bool)

  predicate AllowedBy(rules: seq<FQDNRule>, d: ObservedDomain) {
    External(d) && FirstCover(d.hostname, rules) != ""
  }

  predicate BlockedBy(rules: seq<FQDNRule>, d: ObservedDomain) {
    External(d) && FirstCover(d.hostname, rules) == ""
  }

  ghost predicate IsReport(rules: seq<FQDNRule>, observed: seq<ObservedDomain>, r: SimulationReport) {
    && r.totalObserved == |observed| && (r.hasRisk <==> r.blocked != [])
    && r.internal == Filter(observed, Internal)
    && r.allowed == Filter(observed, d => AllowedBy(rules, d))
    && r.blocked == Filter(observed, d => BlockedBy(rules, d))
    && r.allowedCount == |r.allowed| && r.blockedCount == |r.blocked| && r.internalCount == |r.internal|
    && |r.matchedBy| == |r.allowed|
    && forall i | 0 <= i < |r.allowed| :: r.matchedBy[i] == FirstCover(r.allowed[i].hostname, rules)
  }

  method Simulate(rules: seq<FQDNRule>, observed: seq<ObservedDomain>) returns (report: SimulationReport)
    ensures IsReport(rules, observed, report)
  {
    var allowed: seq<ObservedDomain>, blocked: seq<ObservedDomain>, internal: seq<ObservedDomain> := [], [], [];
    var matchedBy: seq<string> := [];
    for i := 0 to |observed|
      invariant internal == Filter(observed[..i], Internal)
      invariant allowed == Filter(observed[..i], d => AllowedBy(rules, d))
      invariant blocked == Filter(observed[..i], d => BlockedBy(rules, d))
      invariant |matchedBy| == |allowed|
      invariant forall k | 0 <= k < |allowed| :: matchedBy[k] == FirstCover(allowed[k].hostname, rules)
    {
      assert observed[..i + 1][..i] == observed[..i];
      if IsInternalDomain(observed[i].hostname) {
        internal := internal + [observed[i]];
        continue;
      }
      var matchedRule := FindMatchingRule(observed[i].hostname, rules);
      if matchedRule != "" {
        allowed, matchedBy := allowed + [observed[i]], matchedBy + [matchedRule];
      } else {
        blocked := blocked + [observed[i]];
      }
    }
    assert observed[..|observed|] == observed;
    report := SimulationReport(|observed|, allowed, matchedBy, blocked, internal, |allowed|, |blocked|, |internal|,
        |blocked| > 0);
  }
}
