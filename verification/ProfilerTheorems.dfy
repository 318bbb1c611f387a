/** Coverage and tightness of synthesized rules: the evaluator against the synthesizer. */
module ProfilerTheorems {
  import opened Strings
  import opened Hostnames
  import opened Policies
  import opened Observations
  import opened Profiler

  /** The external hostnames the synthesizer clusters. */
  function Candidates(observed: seq<ObservedDomain>): seq<string> {
    Names(Filter(observed, External))
  }

  lemma CandidateOf(observed: seq<ObservedDomain>, h: string)
    ensures h in Candidates(observed) <==> exists d | d in observed :: External(d) && d.hostname == h
  {
    var ext := Filter(observed, External);
    if h in Names(ext) {
      var i :| 0 <= i < |ext| && Names(ext)[i] == h;
      assert ext[i] in ext;
    }
    forall d | d in observed && External(d) && d.hostname == h ensures h in Names(ext) {
      var i :| 0 <= i < |ext| && ext[i] == d;
      assert Names(ext)[i] == h;
    }
  }

  /** An external name is not empty after normalisation: it has a dot left. */
  lemma ExternalHasDot(h: string)
    requires !IsInternalDomain(h)
    ensures '.' in Norm(h) && Norm(h) != ""
  {
  }

  lemma StableMember(domains: seq<string>, s: string)
    requires s in Distinct(domains) && forall d | d in domains :: Stable(d)
    ensures Normal(s) && Norm(s) == s && s != ""
  {
    var d :| d in domains && s == Norm(d);
    StableIff(d);
    NormalIsFixed(s);
  }

  /** A wildcard over a normal name's base domain is itself normal. */
  lemma WildcardNormal(s: string)
    requires Normal(s) && s != ""
    ensures Norm("*." + BaseDomain(s)) == "*." + BaseDomain(s)
  {
    NormalIsFixed(s);
    NameUnderBase(s);
    hide BaseDomain, Norm;
    var base := BaseDomain(s);
    NonemptyTail(s, base);
    var w := "*." + base;
    forall c | c in w ensures LowerChar(c) == c {
      if c in base { }
    }
    NormalIsFixed(w);
  }

  /** What lies at the end of a normal name is lower case and ends as the name ends. */
  lemma NonemptyTail(s: string, base: string)
    requires Normal(s) && s != "" && Under(s, base)
    ensures base != "" && base[|base| - 1] == s[|s| - 1] && Lower(base)
  {
    if s != base {
      assert s[|s| - |base| - 1..] == "." + base;
      forall c | c in base ensures c in s {
        var i :| 0 <= i < |base| && base[i] == c;
        assert ("." + base)[i + 1] == c && s[|s| - |base| - 1..][i + 1] == c;
      }
      assert base != "" ==> ("." + base)[|base|] == base[|base| - 1] && s[|s| - |base| - 1..][|base|] == s[|s| - 1];
    }
  }

  // ---- what is synthesized ----

  /** The distinct external names, normalised, that share this base domain. */
  function Members(observed: seq<ObservedDomain>, base: string): set<string> {
    set d | d in observed && External(d) && Norm(d.hostname) != "" && BaseDomain(Norm(d.hostname)) == base ::
        Norm(d.hostname)
  }

  /** With the default of three, or a threshold of two or more: enough members, or a member that is a wildcard. */
  predicate WildcardDue(observed: seq<ObservedDomain>, threshold: int, base: string) {
    || (threshold != 1 && exists s | s in Members(observed, base) :: HasPrefix(s, "*."))
    || (threshold >= 2 && |Members(observed, base)| >= threshold)
    || (threshold <= 0 && |Members(observed, base)| >= 3)
  }

  lemma MembersAreSubdomains(observed: seq<ObservedDomain>, base: string)
    ensures Subdomains(Candidates(observed), base) == Members(observed, base)
    ensures Members(observed, base) != {} ==> base in Bases(Candidates(observed))
  {
    hide Norm, BaseDomain, External;
    var domains := Candidates(observed);
    forall s ensures s in Subdomains(domains, base) <==> s in Members(observed, base) {
      if s in Subdomains(domains, base) {
        var h :| h in domains && s == Norm(h);
        CandidateOf(observed, h);
      }
      if s in Members(observed, base) {
        var d :| d in observed && External(d) && s == Norm(d.hostname);
        CandidateOf(observed, d.hostname);
      }
    }
  }

  lemma DueIffRolledUp(observed: seq<ObservedDomain>, threshold: int, base: string)
    ensures RolledUp(Candidates(observed), EffectiveThreshold(threshold), base) <==>
              WildcardDue(observed, threshold, base)
    ensures WildcardDue(observed, threshold, base) ==> base in Bases(Candidates(observed))
  {
    MembersAreSubdomains(observed, base);
    hide Subdomains, Members, Candidates;
  }

  /**
   * The synthesized rules in full: each opens TCP port 443, and a pattern is there exactly when it is the
   * wildcard of a base domain that is due one, or the name of an external observation whose base domain is not.
   */
  lemma SynthesisMeaning(observed: seq<ObservedDomain>, threshold: int, rules: seq<FQDNRule>, x: string)
    requires IsSynthesis(observed, threshold, rules)
    ensures forall r | r in rules :: r.ports == [PolicyPort("TCP", 443)]
    ensures x in Patterns(rules) <==>
              || (exists base :: WildcardDue(observed, threshold, base) && x == "*." + base)
              || (x in Members(observed, BaseDomain(x)) && !WildcardDue(observed, threshold, BaseDomain(x)))
  {
    var domains := Candidates(observed);
    hide RolledUp, WildcardDue, Norm, BaseDomain;
    forall base { DueIffRolledUp(observed, threshold, base); }
    MembersAreSubdomains(observed, BaseDomain(x));
    assert x in Distinct(domains) <==> x in Subdomains(domains, BaseDomain(x));
    hide Candidates, Bases, Members;
  }

  // ---- coverage ----

  lemma StableNorm(h: string)
    requires Stable(h) && Norm(h) != ""
    ensures Normal(Norm(h)) && Norm(Norm(h)) == Norm(h)
  {
    StableIff(h);
    NormalIsFixed(Norm(h));
  }

  /**
   * Every stable candidate is covered by a rule that is itself in normal form, whatever the threshold
   * and whatever else was observed.
   */
  lemma CandidateCovered(domains: seq<string>, threshold: int, h: string)
    requires h in domains && Norm(h) != "" && Stable(h)
    ensures exists rule :: IsRule(domains, threshold, rule) && Covers(rule, h) && Norm(rule) == rule && rule != ""
  {
    var s := Norm(h);
    assert s in Distinct(domains);
    StableNorm(h);
    WildcardNormal(s);
    NameUnderBase(s);
    var base := BaseDomain(s);
    assert base in Bases(domains);
    hide RolledUp, Norm, BaseDomain, Covers, Stable;
    if RolledUp(domains, threshold, base) {
      BaseCovers(base, h);
      assert IsRule(domains, threshold, "*." + base);
    } else {
      SelfCovers(s, h);
      assert IsRule(domains, threshold, s);
    }
  }

  lemma SelfCovers(s: string, h: string)
    requires Norm(s) == s == Norm(h)
    ensures Covers(s, h)
  {
    hide Norm;
  }

  lemma BaseCovers(base: string, h: string)
    requires Norm("*." + base) == "*." + base && Under(Norm(h), base)
    ensures Covers("*." + base, h)
  {
    hide Norm;
    assert ("*." + base)[2..] == base;
  }

  /** For every list and threshold, a stable external observation is allowed by the synthesized policy. */
  lemma StableNameAllowed(observed: seq<ObservedDomain>, threshold: int, rules: seq<FQDNRule>, d: ObservedDomain)
    requires IsSynthesis(observed, threshold, rules) && d in observed && External(d) && Stable(d.hostname)
    ensures FirstCover(d.hostname, rules) != ""
    ensures exists r | r in rules :: Covers(r.pattern, d.hostname) && Norm(r.pattern) == r.pattern
  {
    hide IsRule, IsInternalDomain, Norm, Covers, Stable;
    var domains := Candidates(observed);
    CandidateOf(observed, d.hostname);
    ExternalHasDot(d.hostname);
    CandidateCovered(domains, EffectiveThreshold(threshold), d.hostname);
    var rule :| IsRule(domains, EffectiveThreshold(threshold), rule) && Covers(rule, d.hostname) && Norm(rule) == rule
        && rule != "";
    assert rule in Patterns(rules);
    RuleHasPattern(rules, rule);
    PatternsNonempty(observed, threshold, rules);
    FirstCoverMeaning(d.hostname, rules);
  }

  /** So whatever the simulator blocks is unstable under normalisation. */
  lemma BlockedAreUnstable(observed: seq<ObservedDomain>, threshold: int, rules: seq<FQDNRule>)
    requires IsSynthesis(observed, threshold, rules)
    ensures forall d | d in Filter(observed, d => BlockedBy(rules, d)) :: !Stable(d.hostname)
  {
    hide IsSynthesis, External, Stable, FirstCover;
    forall d | d in observed && BlockedBy(rules, d) ensures !Stable(d.hostname) {
      if Stable(d.hostname) {
        StableNameAllowed(observed, threshold, rules, d);
      }
    }
  }

  /**
   * Profile, then simulate on the same observations: nothing is blocked, and the two counts agree,
   * for every threshold, provided every external name is stable under normalisation.
   */
  lemma ProfileThenSimulateClosed(observed: seq<ObservedDomain>, threshold: int, rules: seq<FQDNRule>)
    requires IsSynthesis(observed, threshold, rules)
    requires forall d | d in observed && External(d) :: Stable(d.hostname)
    ensures Filter(observed, d => BlockedBy(rules, d)) == []
    ensures Filter(observed, d => AllowedBy(rules, d)) == Filter(observed, External)
  {
    hide IsSynthesis, External, Stable, FirstCover;
    forall d | d in observed && External(d) ensures FirstCover(d.hostname, rules) != "" {
      StableNameAllowed(observed, threshold, rules, d);
    }
    NothingPasses(observed, d => BlockedBy(rules, d));
    FilterCongruent(observed, d => AllowedBy(rules, d), External);
  }

  /** The same in the terms of the two reports. */
  lemma ClosureInCounts(
    observed: seq<ObservedDomain>, threshold: int, rules: seq<FQDNRule>, summary: ProfileSummary,
    report: SimulationReport)
    requires IsSynthesis(observed, threshold, rules) && IsSummary(observed, threshold, rules, summary)
    requires IsReport(rules, observed, report)
    requires forall d | d in observed && External(d) :: Stable(d.hostname)
    ensures report.blockedCount == 0 && !report.hasRisk
    ensures report.allowedCount == summary.externalAllowed && report.internalCount == summary.internalIgnored
  {
    hide IsRule, Stable, External, ClustersOf;
    ProfileThenSimulateClosed(observed, threshold, rules);
  }

  lemma {:induction false} NothingPasses(s: seq<ObservedDomain>, p: ObservedDomain -> bool)
    requires forall x | x in s :: !p(x)
    ensures Filter(s, p) == []
  {
    if s != [] {
      NothingPasses(s[..|s| - 1], p);
    }
  }

  lemma RuleHasPattern(rules: seq<FQDNRule>, pattern: string)
    ensures pattern in Patterns(rules) <==> exists r | r in rules :: r.pattern == pattern
  {
    if pattern in Patterns(rules) {
      var i :| 0 <= i < |rules| && Patterns(rules)[i] == pattern;
      assert rules[i] in rules;
    }
    forall r | r in rules && r.pattern == pattern ensures pattern in Patterns(rules) {
      var i :| 0 <= i < |rules| && rules[i] == r;
      assert Patterns(rules)[i] == pattern;
    }
  }

  lemma ClusterRuleNonempty(domains: seq<string>, threshold: int, rule: string)
    requires IsRule(domains, threshold, rule)
    ensures rule != ""
  {
  }

  lemma PatternsNonempty(observed: seq<ObservedDomain>, threshold: int, rules: seq<FQDNRule>)
    requires IsSynthesis(observed, threshold, rules)
    ensures forall r | r in rules :: r.pattern != ""
  {
    forall r | r in rules ensures r.pattern != "" {
      RuleHasPattern(rules, r.pattern);
      ClusterRuleNonempty(Candidates(observed), EffectiveThreshold(threshold), r.pattern);
    }
  }

  // ---- when an unstable name is blocked ----

  /** A rule whose normal form is settled reaches stable names only. */
  lemma NormalRuleMisses(x: string, h: string)
    requires Normal(Norm(x)) && !Stable(h)
    ensures !Covers(x, h)
  {
    var n, m := Norm(h), Norm(x);
    StableIff(h);
    hide Norm, Stable;
    if IsWildcard(m) {
      var suffix := m[2..];
      assert suffix != "" && suffix[|suffix| - 1] == m[|m| - 1];
    }
  }

  /** Two normalisations settle every name, except those of one plain normal form. */
  ghost predicate Settling(domains: seq<string>, n: string) {
    forall d | d in domains :: Stable(Norm(d)) || (Norm(d) == n && !IsWildcard(n))
  }

  lemma MemberSettles(domains: seq<string>, n: string, s: string)
    requires Settling(domains, n) && s in Distinct(domains) && (s != n || IsWildcard(n))
    ensures Stable(s)
  {
    hide Norm, Stable;
  }

  /** The wildcard over the base domain of a settling name has a settled normal form. */
  lemma SettledWildcard(s: string)
    requires Stable(s)
    ensures Normal(Norm("*." + BaseDomain(s)))
  {
    var u := Norm(s);
    StableIff(s);
    if u != "" {
      NormalIsFixed(u);
      WildcardNormal(u);
      hide Norm;
      FixedIsNormal("*." + BaseDomain(s));
    } else {
      assert BaseDomain(s) == "" && "*." + "" == "*.";
      assert TrimSpace("*.") == "*." && ToLower("*.") == "*.";
      assert Norm("*.") == "*";
    }
  }

  lemma SmallSet(s: set<string>, x: string)
    requires s <= {x}
    ensures |s| <= 1
  {
    if x in s {
      assert s == {x};
    } else {
      assert s == {};
    }
  }

  /** A rolled-up group has a settling member. */
  lemma RolledUpSettles(domains: seq<string>, threshold: int, n: string, base: string)
    requires Settling(domains, n) && RolledUp(domains, threshold, base)
    ensures Normal(Norm("*." + base))
  {
    hide Norm, BaseDomain, Stable;
    var subs := Subdomains(domains, base);
    if subs <= {n} {
      SmallSet(subs, n);
    }
    var s :| s in subs && (s != n || IsWildcard(n));
    MemberSettles(domains, n, s);
    SettledWildcard(s);
  }

  lemma NoRuleCovers(domains: seq<string>, threshold: int, h: string, rule: string)
    requires Settling(domains, Norm(h)) && !Stable(h) && IsRule(domains, threshold, rule)
    ensures !Covers(rule, h)
  {
    var n := Norm(h);
    hide Covers, Norm, Stable, BaseDomain, Settling;
    if rule in Distinct(domains) && !RolledUp(domains, threshold, BaseDomain(rule)) {
      hide RolledUp;
      if rule == n && !IsWildcard(n) {
        NotCovered(h);
      } else {
        MemberSettles(domains, n, rule);
        StableIff(rule);
        NormalRuleMisses(rule, h);
      }
    } else {
      var base :| base in Bases(domains) && RolledUp(domains, threshold, base) && rule == "*." + base;
      RolledUpSettles(domains, threshold, n, base);
      NormalRuleMisses(rule, h);
    }
  }

  /**
   * Among observations that two normalisations settle, the simulator blocks exactly the unstable ones,
   * however many there are, wildcards included, for every threshold. The same holds of an observation
   * that two normalisations do not settle, if it is plain and the only one of the list.
   */
  lemma BlockedIffUnstable(observed: seq<ObservedDomain>, threshold: int, rules: seq<FQDNRule>, d: ObservedDomain)
    requires IsSynthesis(observed, threshold, rules) && d in observed && External(d)
    requires Settling(Candidates(observed), Norm(d.hostname))
    ensures BlockedBy(rules, d) <==> !Stable(d.hostname)
  {
    hide IsRule, Norm, Covers, Stable, Settling, IsInternalDomain;
    if Stable(d.hostname) {
      StableNameAllowed(observed, threshold, rules, d);
    } else {
      PatternsNonempty(observed, threshold, rules);
      FirstCoverMeaning(d.hostname, rules);
      forall r | r in rules ensures !Covers(r.pattern, d.hostname) {
        RuleHasPattern(rules, r.pattern);
        NoRuleCovers(Candidates(observed), EffectiveThreshold(threshold), d.hostname, r.pattern);
      }
    }
  }

  lemma SettlesForAll(domains: seq<string>, n: string, m: string)
    requires forall d | d in domains :: Stable(Norm(d))
    ensures Settling(domains, m)
  {
  }

  /** Hence nothing is blocked exactly if every external name is stable, given that all but one form settle. */
  lemma ClosedIffStable(observed: seq<ObservedDomain>, threshold: int, rules: seq<FQDNRule>, n: string)
    requires IsSynthesis(observed, threshold, rules) && Settling(Candidates(observed), n)
    ensures Filter(observed, d => BlockedBy(rules, d)) == []
            <==> forall d | d in observed && External(d) :: Stable(d.hostname)
  {
    hide IsSynthesis, Stable, External, FirstCover, Norm;
    var domains := Candidates(observed);
    if forall d | d in observed && External(d) :: Stable(d.hostname) {
      ProfileThenSimulateClosed(observed, threshold, rules);
    } else {
      var d :| d in observed && External(d) && !Stable(d.hostname);
      if x :| x in observed && External(x) && !Stable(Norm(x.hostname)) {
        CandidateOf(observed, x.hostname);
        UnsettledIsUnstable(x.hostname);
        d := x;
      } else {
        forall h { CandidateOf(observed, h); }
        SettlesForAll(domains, n, Norm(d.hostname));
      }
      BlockedIffUnstable(observed, threshold, rules, d);
      assert d in Filter(observed, d => BlockedBy(rules, d));
    }
  }

  lemma UnsettledIsUnstable(h: string)
    requires !Stable(Norm(h))
    ensures !Stable(h)
  {
    hide Norm;
  }

  /** In particular a plain unstable name is blocked by the policy synthesized from it alone. */
  lemma UnstableNameBlocked(d: ObservedDomain, threshold: int, rules: seq<FQDNRule>)
    requires External(d) && !Stable(d.hostname) && !IsWildcard(Norm(d.hostname))
    requires IsSynthesis([d], threshold, rules)
    ensures Filter([d], x => BlockedBy(rules, x)) == [d]
  {
    hide IsSynthesis, Stable, External, FirstCover, Norm;
    forall h { CandidateOf([d], h); }
    BlockedIffUnstable([d], threshold, rules, d);
    FilterOne(d, x => BlockedBy(rules, x));
  }

  /** A concrete one: a name with two trailing dots, for every threshold. */
  lemma DoubleDotBlocked(d: ObservedDomain, threshold: int, rules: seq<FQDNRule>)
    requires d.hostname == "a.b.." && IsSynthesis([d], threshold, rules)
    ensures External(d) && Filter([d], x => BlockedBy(rules, x)) == [d]
  {
    hide IsSynthesis;
    DoubleDotUnstable();
    hide IsInternalDomain, Norm, Stable;
    UnstableNameBlocked(d, threshold, rules);
  }

  /** The last character but one is no dot. */
  predicate PlainEnd(s: string) {
    |s| >= 2 && s[|s| - 2] != '.'
  }

  lemma SuffixesEndPlainly(s: string)
    requires s in INTERNAL_SUFFIXES
    ensures PlainEnd(s)
  {
    var i :| 0 <= i < |INTERNAL_SUFFIXES| && INTERNAL_SUFFIXES[i] == s;
    assert |s| >= 4;
  }

  lemma NamesEndPlainly(s: string)
    requires s in INTERNAL_NAMES
    ensures PlainEnd(s)
  {
  }

  lemma NoDottedSuffix(h: string, s: string)
    requires |h| >= 2 && h[|h| - 2] == '.' && PlainEnd(s)
    ensures !HasSuffix(h, s) && h != s
  {
  }

  /** No internal name, and no internal suffix, ends in two dots. */
  lemma DottedIsExternal(h: string)
    requires ToLower(TrimSpace(h)) == h && |h| >= 2 && h[|h| - 1] == '.' && h[|h| - 2] == '.'
    ensures !IsInternalDomain(h)
  {
    hide ToLower, TrimSpace, HasSuffix, PlainEnd;
    assert TrimDot(h)[|h| - 2] == '.';
    if h in INTERNAL_NAMES {
      NamesEndPlainly(h);
      NoDottedSuffix(h, h);
    }
    if s :| s in INTERNAL_SUFFIXES && HasSuffix(h, s) {
      SuffixesEndPlainly(s);
      NoDottedSuffix(h, s);
    }
  }

  lemma DoubleDotUnstable()
    ensures !IsInternalDomain("a.b..") && !Stable("a.b..") && Norm("a.b..") == "a.b." && !IsWildcard("a.b.")
  {
    var h := "a.b..";
    assert TrimSpace(h) == h && ToLower(h) == h;
    DottedIsExternal(h);
    hide IsInternalDomain;
    StableIff(h);
  }

  lemma NotCovered(h: string)
    requires !Stable(h) && !IsWildcard(Norm(h))
    ensures !Covers(Norm(h), h)
  {
    var n := Norm(h);
    NormShape(h);
    NormIsPrefix(n);
  }

  /**
   * Names that two normalisations do not settle can shield others: next to `a.b...`, whose rule is the
   * text `a.b..`, the unstable `a.b..` is allowed.
   */
  lemma TripleDotShields(observed: seq<ObservedDomain>, rules: seq<FQDNRule>, d: ObservedDomain, e: ObservedDomain)
    requires observed == [d, e] && d.hostname == "a.b.." && e.hostname == "a.b..."
    requires IsSynthesis(observed, 1, rules)
    ensures External(d) && !Stable(d.hostname) && !BlockedBy(rules, d)
  {
    DoubleDotUnstable();
    TripleDot();
    hide Norm, Stable, IsInternalDomain, Covers;
    var domains := Candidates(observed);
    CandidateOf(observed, e.hostname);
    assert "a.b.." in Distinct(domains);
    assert IsRule(domains, 1, "a.b..");
    SameTextCovers("a.b..");
    RuleHasPattern(rules, "a.b..");
    PatternsNonempty(observed, 1, rules);
    FirstCoverMeaning("a.b..", rules);
  }

  lemma SameTextCovers(h: string)
    ensures Covers(h, h)
  {
  }

  lemma TripleDot()
    ensures !IsInternalDomain("a.b...") && Norm("a.b...") == "a.b.."
  {
    var h := "a.b...";
    assert TrimSpace(h) == h && ToLower(h) == h;
    DottedIsExternal(h);
    hide IsInternalDomain;
  }

  // ---- tightness ----

  /** Names that one normalisation settles, and that have a dot left. */
  predicate StableNames(domains: seq<string>) {
    forall d | d in domains :: Stable(d) && '.' in Norm(d)
  }

  /** A wildcard that is its own base domain is a proper one. */
  lemma WildcardBaseProper(s: string)
    requires IsWildcard(s) && Norm(s) == s && BaseDomain(s) == s
    ensures ProperBase(s)
  {
    hide Norm, Split, Join, BaseDomain;
    var parts := Split(s);
    var k := BaseLabels(parts);
    var tail := parts[|parts| - k..];
    BaseIsTail(s);
    forall p | p in tail ensures '.' !in p {
      assert p in parts;
    }
    SplitJoin(tail);
    SplitDots(s);
    assert s[1] == '.' && s[0] == '*';
    NoListedWildcard(s);
  }

  lemma NoListedWildcard(s: string)
    requires IsWildcard(s)
    ensures s !in MULTI_PART_TLDS
  {
    assert s[0] == '*';
    assert forall t | t in MULTI_PART_TLDS :: t[0] != '*';
  }

  /**
   * A generated wildcard sits on a proper base domain: never directly on a listed two-part suffix, never
   * on a bare label. It is backed by an observed wildcard or by at least threshold distinct names.
   */
  lemma WildcardsBacked(domains: seq<string>, threshold: int, base: string)
    requires StableNames(domains) && RolledUp(domains, threshold, base)
    ensures threshold > 1 && ProperBase(base) && base !in MULTI_PART_TLDS
    ensures (forall s | s in Subdomains(domains, base) :: !IsWildcard(s)) ==> |Subdomains(domains, base)| >= threshold
  {
    hide Norm, BaseDomain, Stable, ProperBase;
    var subs := Subdomains(domains, base);
    var s: string;
    if subs <= {base} {
      SmallSet(subs, base);
      s :| s in subs && IsWildcard(s);
    } else {
      s :| s in subs && s != base;
    }
    StableMember(domains, s);
    if s == base {
      WildcardBaseProper(s);
    } else {
      LongerNameHasProperBase(s);
    }
    ListedSuffixesHaveTwoLabels(base);
  }

  lemma ListedSuffixesHaveTwoLabels(base: string)
    requires ProperBase(base)
    ensures base !in MULTI_PART_TLDS
  {
    if base in MULTI_PART_TLDS {
      TwoLabels(base);
    }
  }

  lemma TwoLabels(t: string)
    requires t in MULTI_PART_TLDS
    ensures |Split(t)| == 2
  {
    hide Split;
    if t == "co.uk" { LabelPair(t, "co", "uk"); }
    else if t == "org.uk" { LabelPair(t, "org", "uk"); }
    else if t == "gov.uk" { LabelPair(t, "gov", "uk"); }
    else if t == "ac.uk" { LabelPair(t, "ac", "uk"); }
    else if t == "co.jp" { LabelPair(t, "co", "jp"); }
    else if t == "ne.jp" { LabelPair(t, "ne", "jp"); }
    else if t == "com.au" { LabelPair(t, "com", "au"); }
    else if t == "net.au" { LabelPair(t, "net", "au"); }
    else if t == "org.au" { LabelPair(t, "org", "au"); }
    else if t == "co.nz" { LabelPair(t, "co", "nz"); }
    else if t == "co.in" { LabelPair(t, "co", "in"); }
    else if t == "net.in" { LabelPair(t, "net", "in"); }
    else if t == "org.in" { LabelPair(t, "org", "in"); }
    else if t == "gen.in" { LabelPair(t, "gen", "in"); }
    else if t == "ind.in" { LabelPair(t, "ind", "in"); }
  }

  lemma LabelPair(t: string, a: string, b: string)
    requires t == a + "." + b && '.' !in a && '.' !in b
    ensures |Split(t)| == 2
  {
    SplitConcat(a, b);
    SplitPlain(a);
    SplitPlain(b);
  }

  /** A wildcard over a single label or over a listed suffix. */
  predicate BroadWildcard(s: string) {
    IsWildcard(s) && ('.' !in s[2..] || s[2..] in MULTI_PART_TLDS)
  }

  /** Whatever lies under a name of two or more labels that is no listed suffix has the same base domain. */
  lemma BaseOfUnder(h: string, p: string)
    requires Under(h, p) && '.' in p && p !in MULTI_PART_TLDS
    ensures BaseOf(h) == BaseOf(p)
  {
    hide Split;
    if h != p {
      var tail := Split(p);
      SplitDots(p);
      JoinSplit(p);
      var front := h[..|h| - |p| - 1];
      assert h == front + ("." + p) && h == front + "." + p;
      SplitConcat(front, p);
      var parts := Split(h);
      assert parts[|parts| - 1] == tail[|tail| - 1] && parts[|parts| - 2] == tail[|tail| - 2];
      if |tail| == 2 {
        JoinLastTwo(tail);
        assert tail[0..] == tail;
      } else {
        assert parts[|parts| - 3] == tail[|tail| - 3];
      }
    }
  }

  /**
   * Whatever a rule covers has the base domain of some observed name, unless the rule is an observed
   * wildcard over a single label or a listed suffix; with a threshold above one there is no such rule.
   */
  lemma CoveredSharesBase(domains: seq<string>, threshold: int, rule: string, x: string)
    requires StableNames(domains) && IsRule(domains, threshold, rule) && Covers(rule, x)
    requires threshold > 1 || !BroadWildcard(rule)
    ensures exists d | d in domains :: BaseDomain(d) == BaseDomain(x)
  {
    hide Norm, BaseDomain, Stable, ProperBase, BaseOf;
    if rule in Distinct(domains) && !RolledUp(domains, threshold, BaseDomain(rule)) {
      StableMember(domains, rule);
      var d :| d in domains && rule == Norm(d);
      SameNormSameBase(d, rule);
      if IsWildcard(rule) {
        assert rule in Subdomains(domains, BaseDomain(rule));
        ExactWildcardTight(rule, x);
      } else {
        assert Norm(x) == rule;
        SameNormSameBase(d, x);
      }
    } else {
      var base :| base in Bases(domains) && RolledUp(domains, threshold, base) && rule == "*." + base;
      var s :| s in Distinct(domains) && BaseDomain(s) == base;
      StableMember(domains, s);
      WildcardNormal(s);
      WildcardsBacked(domains, threshold, base);
      hide RolledUp, Covers;
      WildcardReach(base, x);
      UnderProperBase(x, base);
      var d :| d in domains && s == Norm(d);
      SameNormSameBase(d, s);
    }
  }

  lemma ExactWildcardTight(rule: string, x: string)
    requires Norm(rule) == rule && IsWildcard(rule) && !BroadWildcard(rule) && Covers(rule, x)
    ensures BaseDomain(rule) == BaseDomain(x)
  {
    hide Norm, BaseOf;
    var p := rule[2..];
    assert rule == "*." + p;
    WildcardReach(p, x);
    assert rule[|rule| - |p| - 1..] == "." + p;
    BaseOfUnder(rule, p);
    BaseOfUnder(Norm(x), p);
  }

  /** A wildcard over a domain reaches only what lies under the domain, its own text apart. */
  lemma WildcardReach(base: string, x: string)
    requires Norm("*." + base) == "*." + base && Covers("*." + base, x)
    ensures Under(Norm(x), base)
  {
    hide Norm;
    var w := "*." + base;
    assert w[2..] == base && HasPrefix(w, "*.");
    assert w[|w| - |base| - 1..] == "." + base;
  }

  lemma SameNormSameBase(d: string, x: string)
    requires Norm(d) == Norm(x) || (Norm(d) == x && Norm(x) == x)
    ensures BaseDomain(d) == BaseDomain(x)
  {
    hide Norm, BaseOf;
  }

  ghost predicate SharesBase(observed: seq<ObservedDomain>, x: string) {
    exists d | d in observed :: External(d) && BaseDomain(d.hostname) == BaseDomain(x)
  }

  /** Tightness of the whole policy, from the simulator's point of view. */
  lemma SynthesizedPolicyTight(observed: seq<ObservedDomain>, threshold: int, rules: seq<FQDNRule>, x: string)
    requires IsSynthesis(observed, threshold, rules)
    requires forall d | d in observed && External(d) :: Stable(d.hostname)
    requires EffectiveThreshold(threshold) > 1
             || forall d | d in observed && External(d) :: !BroadWildcard(Norm(d.hostname))
    requires FirstCover(x, rules) != ""
    ensures SharesBase(observed, x)
  {
    hide IsRule, IsInternalDomain, Norm, Covers, Stable, BaseDomain, BroadWildcard, EffectiveThreshold;
    var domains := Candidates(observed);
    forall h { CandidateOf(observed, h); }
    forall d | d in domains ensures Stable(d) && '.' in Norm(d) {
      ExternalHasDot(d);
    }
    PatternsNonempty(observed, threshold, rules);
    FirstCoverMeaning(x, rules);
    var r :| r in rules && Covers(r.pattern, x);
    RuleHasPattern(rules, r.pattern);
    if EffectiveThreshold(threshold) <= 1 {
      ExactAtOne(domains, EffectiveThreshold(threshold), r.pattern);
    }
    CoveredSharesBase(domains, EffectiveThreshold(threshold), r.pattern, x);
  }

  lemma ExactAtOne(domains: seq<string>, threshold: int, rule: string)
    requires IsRule(domains, threshold, rule) && threshold <= 1
    ensures exists d | d in domains :: rule == Norm(d)
  {
    hide Norm, BaseDomain;
  }

  // ---- when it is not tight ----

  lemma {:induction false} LongerThanAll(texts: set<string>) returns (k: nat)
    ensures k > 0 && forall t | t in texts :: |t| < k
  {
    if texts == {} {
      k := 1;
    } else {
      var t :| t in texts;
      k := LongerThanAll(texts - {t});
      if k <= |t| {
        k := |t| + 1;
      }
    }
  }

  /** Putting a label of lower-case letters before a name instead of a star keeps it in normal form. */
  lemma LabelledNormal(front: string, p: string)
    requires Normal("*." + p) && front != "" && forall c | c in front :: c == 'a'
    ensures Normal(front + "." + p) && p != ""
  {
    var w, x := "*." + p, front + "." + p;
    assert w[|w| - 1] != '.' && w[1] == '.' && front[0] in front;
    assert p != "" && p[|p| - 1] == w[|w| - 1] && x[|x| - 1] == p[|p| - 1] && x[0] == front[0];
    forall c | c in p ensures c in w {
      var i :| 0 <= i < |p| && p[i] == c;
      assert w[i + 2] == c;
    }
    forall c | c in x ensures LowerChar(c) == c {
    }
  }

  lemma LabelledFixed(front: string, p: string)
    requires Norm("*." + p) == "*." + p && front != "" && forall c | c in front :: c == 'a'
    ensures Norm(front + "." + p) == front + "." + p
  {
    FixedIsNormal("*." + p);
    LabelledNormal(front, p);
    NormalIsFixed(front + "." + p);
    hide Norm, Normal;
  }

  lemma LabelledCovered(front: string, p: string)
    requires Norm("*." + p) == "*." + p && Norm(front + "." + p) == front + "." + p
    ensures Covers("*." + p, front + "." + p)
  {
    hide Norm;
    var w, x := "*." + p, front + "." + p;
    assert w[2..] == p;
    assert x == front + ("." + p);
    SuffixOfConcat(front, "." + p);
  }

  /** A broad wildcard covers its domain under another label, which then is its own base domain. */
  lemma BroadReachUnder(p: string, front: string)
    requires Norm("*." + p) == "*." + p && BroadWildcard("*." + p)
    requires front != "" && forall c | c in front :: c == 'a'
    ensures Covers("*." + p, front + "." + p) && BaseDomain(front + "." + p) == front + "." + p
  {
    hide Norm, BaseOf, Covers;
    assert ("*." + p)[2..] == p;
    LabelledFixed(front, p);
    LabelledCovered(front, p);
    BaseOfLabelled(front, p);
  }

  /** So it reaches names whose base domain is none of any given ones. */
  lemma BroadReach(rule: string, bases: set<string>) returns (x: string)
    requires Norm(rule) == rule && BroadWildcard(rule)
    ensures Covers(rule, x) && BaseDomain(x) !in bases
  {
    hide Norm, BroadWildcard, Covers, BaseDomain;
    var k := LongerThanAll(bases);
    var front := seq(k, _ => 'a');
    assert IsWildcard(rule) by { BroadIsWildcard(rule); }
    assert rule == "*." + rule[2..];
    BroadReachUnder(rule[2..], front);
    x := front + "." + rule[2..];
  }

  lemma BroadIsWildcard(rule: string)
    requires BroadWildcard(rule)
    ensures IsWildcard(rule)
  {
  }

  lemma BaseOfLabelled(first: string, p: string)
    requires '.' !in first && ('.' !in p || p in MULTI_PART_TLDS)
    ensures BaseOf(first + "." + p) == first + "." + p
  {
    hide Split;
    SplitConcat(first, p);
    SplitPlain(first);
    if '.' !in p {
      SplitPlain(p);
    } else {
      TwoLabels(p);
      var t := Split(p);
      JoinLastTwo(t);
      JoinSplit(p);
      assert t[0..] == t;
      assert p == t[0] + "." + t[1];
    }
  }

  /**
   * For stable observations the policy is tight exactly when the threshold in force is above one, or no
   * external name was observed as a wildcard over a single label or a listed suffix.
   */
  lemma PolicyTightIff(observed: seq<ObservedDomain>, threshold: int, rules: seq<FQDNRule>)
    requires IsSynthesis(observed, threshold, rules)
    requires forall d | d in observed && External(d) :: Stable(d.hostname)
    ensures (forall x | FirstCover(x, rules) != "" :: SharesBase(observed, x))
            <==> EffectiveThreshold(threshold) > 1
                 || forall d | d in observed && External(d) :: !BroadWildcard(Norm(d.hostname))
  {
    hide IsSynthesis, FirstCover, Stable, External, Norm, BroadWildcard, SharesBase, EffectiveThreshold;
    if EffectiveThreshold(threshold) > 1 || forall d | d in observed && External(d) ::
        !BroadWildcard(Norm(d.hostname)) {
      forall x | FirstCover(x, rules) != "" ensures SharesBase(observed, x) {
        SynthesizedPolicyTight(observed, threshold, rules, x);
      }
    } else {
      var d :| d in observed && External(d) && BroadWildcard(Norm(d.hostname));
      var x := BroadPolicyReach(observed, threshold, rules, d);
    }
  }

  lemma BroadPolicyReach(observed: seq<ObservedDomain>, threshold: int, rules: seq<FQDNRule>, d: ObservedDomain)
    returns (x: string)
    requires IsSynthesis(observed, threshold, rules) && EffectiveThreshold(threshold) <= 1
    requires d in observed && External(d) && Stable(d.hostname) && BroadWildcard(Norm(d.hostname))
    ensures FirstCover(x, rules) != "" && !SharesBase(observed, x)
  {
    hide IsInternalDomain, Norm, BaseDomain, Stable, Covers, EffectiveThreshold;
    var bases := set e | e in observed :: BaseDomain(e.hostname);
    var domains, rule := Candidates(observed), Norm(d.hostname);
    CandidateOf(observed, d.hostname);
    ExternalHasDot(d.hostname);
    StableNorm(d.hostname);
    assert rule in Distinct(domains);
    assert IsRule(domains, EffectiveThreshold(threshold), rule);
    x := BroadReach(rule, bases);
    RuleHasPattern(rules, rule);
    PatternsNonempty(observed, threshold, rules);
    FirstCoverMeaning(x, rules);
  }

  /** A concrete one: from `*.com` alone, threshold one gives a policy that allows `a.com`. */
  lemma StarComNotTight(d: ObservedDomain, rules: seq<FQDNRule>)
    requires d.hostname == "*.com" && IsSynthesis([d], 1, rules)
    ensures External(d) && Stable(d.hostname) && FirstCover("a.com", rules) != "" && !SharesBase([d], "a.com")
  {
    StarCom();
    hide IsInternalDomain, Norm, BaseDomain, Stable, Covers;
    var domains := Candidates([d]);
    CandidateOf([d], d.hostname);
    assert "*.com" in Distinct(domains);
    assert IsRule(domains, 1, "*.com");
    RuleHasPattern(rules, "*.com");
    PatternsNonempty([d], 1, rules);
    FirstCoverMeaning("a.com", rules);
  }

  lemma StarCom()
    ensures !IsInternalDomain("*.com") && Norm("*.com") == "*.com" && Stable("*.com")
    ensures Covers("*.com", "a.com") && BaseDomain("*.com") != BaseDomain("a.com")
  {
    StarComTexts();
    StarComExternal();
    hide IsInternalDomain, Norm, BaseOf;
    var s, a := "*.com", "a.com";
    BaseOfLabelled("*", "com");
    BaseOfLabelled("a", "com");
    assert "*" + "." + "com" == s && "a" + "." + "com" == a && s[0] != a[0];
    assert s[2..] == "com" && a[1..] == "." + "com";
  }

  lemma StarComTexts()
    ensures Norm("*.com") == "*.com" && Norm("a.com") == "a.com"
    ensures ToLower(TrimSpace("*.com")) == "*.com" && TrimDot("*.com") == "*.com"
  {
    var s, a := "*.com", "a.com";
    assert TrimSpace(s) == s && TrimSpace(a) == a;
    assert ToLower(s) == s && ToLower(a) == a;
  }

  lemma StarComExternal()
    ensures !IsInternalDomain("*.com")
  {
    var s := "*.com";
    StarComTexts();
    hide ToLower, TrimSpace, TrimDot;
    assert s[0] == '*' && s[1] == '.';
    assert forall t | t in INTERNAL_NAMES :: t[0] != '*';
    forall t | t in INTERNAL_SUFFIXES ensures !HasSuffix(s, t) {
      assert |t| > 5 || (|t| == 5 && t[0] == '.') || (|t| == 4 && t[1] != 'c');
    }
  }
}
