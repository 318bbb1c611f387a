/** Admission of egress rules: the name grammar, raw addresses, duplicates and port checks. */
module Webhook {
  import opened Strings
  import opened Hostnames
  import opened Policies
  import opened Observations
  import opened Profiler

  // ---- the name grammar ----

  predicate Letter(c: char) {
    'a' <= c <= 'z' || 'A' <= c <= 'Z'
  }

  predicate Digit(c: char) {
    '0' <= c <= '9'
  }

  predicate LetterOrDigit(c: char) {
    Letter(c) || Digit(c)
  }

  /** 1 to 63 characters: letters, digits and hyphens, with no hyphen at either end. */
  predicate IsLabel(p: string) {
    && 1 <= |p| <= 63
    && LetterOrDigit(p[0]) && LetterOrDigit(p[|p| - 1])
    && forall c | c in p :: LetterOrDigit(c) || c == '-'
  }

  predicate IsTopLevel(p: string) {
    |p| >= 2 && forall c | c in p :: Letter(c)
  }

  predicate LabelList(parts: seq<string>) {
    && |parts| >= 2
    && (forall i | 0 <= i < |parts| - 1 :: IsLabel(parts[i]))
    && IsTopLevel(parts[|parts| - 1])
  }

  /** The grammar of `fqdnRE` without the optional wildcard prefix. */
  predicate PlainFQDN(s: string) {
    LabelList(Split(s))
  }

  predicate IsFQDN(s: string) {
    PlainFQDN(if HasPrefix(s, "*.") then s[2..] else s)
  }

  // ---- net.ParseIP, as far as it decides that a text is an address ----

  /** One dotted-quad field: up to 255 in decimal, without leading zeros. */
  predicate IsOctet(p: string) {
    && 1 <= |p| <= 3
    && (forall c | c in p :: Digit(c))
    && (|p| > 1 ==> p[0] != '0')
    && (|p| == 3 ==> p[0] < '2' || (p[0] == '2' && (p[1] < '5' || (p[1] == '5' && p[2] <= '5'))))
  }

  /** The first of '.', ':' and '%' decides how the text is read. */
  function FirstMark(s: string): Option<char> {
    if s == "" then None
    else if s[0] == '.' || s[0] == ':' || s[0] == '%' then Some(s[0])
    else FirstMark(s[1..])
  }

  /** `v6` stands for the IPv6 reader. */
  predicate ParsesAsIP(s: string, v6: string -> bool) {
    match FirstMark(s)
    case None => false
    case Some(c) =>
      if c == '.' then |Split(s)| == 4 && forall p | p in Split(s) :: IsOctet(p)
      else c == ':' && v6(s)
  }

  /** No name of the grammar is an address, so the address check never fails a rule alone. */
  lemma NamesAreNoAddresses(s: string, v6: string -> bool)
    requires IsFQDN(s)
    ensures !ParsesAsIP(s, v6)
  {
    var body := if HasPrefix(s, "*.") then s[2..] else s;
    PlainCharacters(body);
    if body != s {
      assert s == "*" + "." + body;
      SplitConcat("*", body);
      SplitPlain("*");
      assert s[0] == '*' && s[1..] == "." + body;
      assert FirstMark(s[1..]) == Some('.') && FirstMark(s) == Some('.');
      assert Split(s)[0] == "*" && "*" in Split(s) && "*"[0] in "*";
    } else {
      var parts := Split(s);
      var last := parts[|parts| - 1];
      assert last in parts && last[0] in last;
      NoMark(s);
    }
  }

  lemma {:induction false} NoMark(s: string)
    requires ':' !in s && '%' !in s
    ensures FirstMark(s) == None || FirstMark(s) == Some('.')
  {
    if s != "" {
      NoMark(s[1..]);
    }
  }

  lemma {:induction false} SplitCharacters(s: string, c: char)
    requires c in s && c != '.'
    ensures exists p | p in Split(s) :: c in p
  {
    var rest := Split(s[1..]);
    assert s == [s[0]] + s[1..];
    if c == s[0] {
      assert Split(s)[0] == [c] + rest[0];
      assert Split(s)[0] in Split(s) && c in Split(s)[0];
    } else {
      SplitCharacters(s[1..], c);
      var i :| 0 <= i < |rest| && c in rest[i];
      var k := if s[0] == '.' then i + 1 else i;
      assert Split(s)[k] == rest[i] || Split(s)[k] == [s[0]] + rest[i];
      assert Split(s)[k] in Split(s) && c in Split(s)[k];
    }
  }

  /** A plain name holds letters, digits, hyphens and dots only. */
  lemma PlainCharacters(s: string)
    requires PlainFQDN(s)
    ensures forall c | c in s :: LetterOrDigit(c) || c == '-' || c == '.'
  {
    var parts := Split(s);
    forall c | c in s ensures LetterOrDigit(c) || c == '-' || c == '.' {
      if c != '.' {
        SplitCharacters(s, c);
        var p :| p in parts && c in p;
        assert IsLabel(p) || IsTopLevel(p);
      }
    }
  }

  // ---- validateEgressRules ----

  datatype Problem =
    | MatchRequired
    | WildcardNeedsSnoop
    | NotAnFQDN
    | RawAddress
    | DuplicateMatch
    | PortOutOfRange(port: nat)
    | UnknownProtocol(port: nat)

  /** One message: which rule, and what is wrong with it. */
  datatype RuleError = RuleError(rule: nat, problem: Problem)

  const PROTOCOLS: set<string> := {"TCP", "UDP", "SCTP", ""}

  /** The rule named by `e` has the problem named by `e`. A rule without a match reports only that. */
  predicate Violated(rules: seq<FQDNRule>, snoop: bool, v6: string -> bool, e: RuleError) {
    && e.rule < |rules|
    && var r := rules[e.rule];
       if r.pattern == "" then e.problem == MatchRequired
       else match e.problem
            case MatchRequired => false
            case WildcardNeedsSnoop => IsWildcard(r.pattern) && !snoop
            case NotAnFQDN => !IsFQDN(r.pattern)
            case RawAddress => ParsesAsIP(r.pattern, v6)
            case DuplicateMatch => exists k | 0 <= k < e.rule :: rules[k].pattern == r.pattern
            case PortOutOfRange(j) => j < |r.ports| && !(1 <= r.ports[j].port <= 65535)
            case UnknownProtocol(j) => j < |r.ports| && r.ports[j].protocol !in PROTOCOLS
  }

  /** The place of a problem among the messages about one rule. */
  function Slot(p: Problem): nat {
    match p
    case MatchRequired => 0
    case WildcardNeedsSnoop => 1
    case NotAnFQDN => 2
    case RawAddress => 3
    case DuplicateMatch => 4
    case PortOutOfRange(j) => 5 + 2 * j
    case UnknownProtocol(j) => 6 + 2 * j
  }

  predicate Earlier(e: RuleError, rule: nat, slot: nat) {
    e.rule < rule || (e.rule == rule && Slot(e.problem) < slot)
  }

  /** Exactly the problems before the given place, in order. */
  ghost predicate Reported(
    rules: seq<FQDNRule>, snoop: bool, v6: string -> bool, errs: seq<RuleError>, rule: nat, slot: nat) {
    && (forall e :: e in errs <==> Violated(rules, snoop, v6, e) && Earlier(e, rule, slot))
    && forall i, j | 0 <= i < j < |errs| :: Earlier(errs[i], errs[j].rule, Slot(errs[j].problem))
  }

  lemma ReportNext(rules: seq<FQDNRule>, snoop: bool, v6: string -> bool, errs: seq<RuleError>, e: RuleError)
    requires Reported(rules, snoop, v6, errs, e.rule, Slot(e.problem))
    ensures Reported(rules, snoop, v6, if Violated(rules, snoop, v6, e) then errs + [e] else errs,
                     e.rule, Slot(e.problem) + 1)
  {
    hide Violated;
    var more := errs + [e];
    forall x ensures Earlier(x, e.rule, Slot(e.problem) + 1) <==> Earlier(x, e.rule, Slot(e.problem)) || x == e {
    }
    forall i, j | 0 <= i < j < |more| ensures Earlier(more[i], more[j].rule, Slot(more[j].problem)) {
      assert more[i] in errs;
    }
  }

  lemma ReportDone(rules: seq<FQDNRule>, snoop: bool, v6: string -> bool, errs: seq<RuleError>, rule: nat, slot: nat)
    requires rule < |rules| && Reported(rules, snoop, v6, errs, rule, slot)
    requires slot >= 1 && (rules[rule].pattern != "" ==> slot >= 5 + 2 * |rules[rule].ports|)
    ensures Reported(rules, snoop, v6, errs, rule + 1, 0)
  {
    hide IsFQDN, ParsesAsIP;
  }

  /** All the problems, in order: rule by rule, and per rule in the order of the checks. */
  method ValidateEgressRules(rules: seq<FQDNRule>, snoop: bool, v6: string -> bool) returns (errs: seq<RuleError>)
    ensures forall e :: e in errs <==> Violated(rules, snoop, v6, e)
    ensures forall i, j | 0 <= i < j < |errs| :: Earlier(errs[i], errs[j].rule, Slot(errs[j].problem))
  {
    hide Reported, IsFQDN, ParsesAsIP;
    errs := [];
    var seen: set<string> := {};
    NothingReported(rules, snoop, v6);
    for i := 0 to |rules|
      invariant Reported(rules, snoop, v6, errs, i, 0)
      invariant forall m :: m in seen <==> m != "" && exists k | 0 <= k < i :: rules[k].pattern == m
    {
      var pattern := rules[i].pattern;
      ReportNext(rules, snoop, v6, errs, RuleError(i, MatchRequired));
      if pattern == "" {
        errs := errs + [RuleError(i, MatchRequired)];
        ReportDone(rules, snoop, v6, errs, i, 1);
        continue;
      }
      errs := ValidateMatch(rules, snoop, v6, i, seen, errs);
      seen := seen + {pattern};
      errs := ValidatePorts(rules, snoop, v6, i, errs);
      ReportDone(rules, snoop, v6, errs, i, 5 + 2 * |rules[i].ports|);
    }
    AllReported(rules, snoop, v6, errs);
  }

  lemma NothingReported(rules: seq<FQDNRule>, snoop: bool, v6: string -> bool)
    ensures Reported(rules, snoop, v6, [], 0, 0)
  {
  }

  lemma AllReported(rules: seq<FQDNRule>, snoop: bool, v6: string -> bool, errs: seq<RuleError>)
    requires Reported(rules, snoop, v6, errs, |rules|, 0)
    ensures forall e :: e in errs <==> Violated(rules, snoop, v6, e)
    ensures forall i, j | 0 <= i < j < |errs| :: Earlier(errs[i], errs[j].rule, Slot(errs[j].problem))
  {
  }

  /** The checks on the match text of one rule. */
  method ValidateMatch(
    rules: seq<FQDNRule>, snoop: bool, v6: string -> bool, i: nat, seen: set<string>, before: seq<RuleError>)
    returns (errs: seq<RuleError>)
    requires i < |rules| && rules[i].pattern != "" && Reported(rules, snoop, v6, before, i, 1)
    requires forall m :: m in seen <==> m != "" && exists k | 0 <= k < i :: rules[k].pattern == m
    ensures Reported(rules, snoop, v6, errs, i, 5)
  {
    hide Reported, IsFQDN, ParsesAsIP;
    var pattern := rules[i].pattern;
    errs := before;
    ReportNext(rules, snoop, v6, errs, RuleError(i, WildcardNeedsSnoop));
    if HasPrefix(pattern, "*.") && !snoop {
      errs := errs + [RuleError(i, WildcardNeedsSnoop)];
    }
    ReportNext(rules, snoop, v6, errs, RuleError(i, NotAnFQDN));
    if !IsFQDN(pattern) {
      errs := errs + [RuleError(i, NotAnFQDN)];
    }
    ReportNext(rules, snoop, v6, errs, RuleError(i, RawAddress));
    if ParsesAsIP(pattern, v6) {
      errs := errs + [RuleError(i, RawAddress)];
    }
    ReportNext(rules, snoop, v6, errs, RuleError(i, DuplicateMatch));
    if pattern in seen {
      errs := errs + [RuleError(i, DuplicateMatch)];
    }
  }

  /** The checks on the ports of one rule. */
  method ValidatePorts(rules: seq<FQDNRule>, snoop: bool, v6: string -> bool, i: nat, before: seq<RuleError>)
    returns (errs: seq<RuleError>)
    requires i < |rules| && rules[i].pattern != "" && Reported(rules, snoop, v6, before, i, 5)
    ensures Reported(rules, snoop, v6, errs, i, 5 + 2 * |rules[i].ports|)
  {
    hide Reported;
    errs := before;
    var ports := rules[i].ports;
    for j := 0 to |ports|
      invariant Reported(rules, snoop, v6, errs, i, 5 + 2 * j)
    {
      ReportNext(rules, snoop, v6, errs, RuleError(i, PortOutOfRange(j)));
      if ports[j].port < 1 || ports[j].port > 65535 {
        errs := errs + [RuleError(i, PortOutOfRange(j))];
      }
      ReportNext(rules, snoop, v6, errs, RuleError(i, UnknownProtocol(j)));
      if ports[j].protocol !in PROTOCOLS {
        errs := errs + [RuleError(i, UnknownProtocol(j))];
      }
    }
  }

  // ---- what admission means ----

  predicate PortsValid(ports: seq<PolicyPort>) {
    forall p | p in ports ::
      && 1 <= p.port <= 65535
      && (p.protocol == "TCP" || p.protocol == "UDP" || p.protocol == "SCTP" || p.protocol == "")
  }

  /** The rules a webhook with or without the snoop resolver lets through. */
  predicate Admissible(rules: seq<FQDNRule>, snoop: bool) {
    && (forall r | r in rules :: IsFQDN(r.pattern) && (IsWildcard(r.pattern) ==> snoop) && PortsValid(r.ports))
    && NoDuplicates(Patterns(rules))
  }

  lemma EmptyIsNoFQDN()
    ensures !IsFQDN("")
  {
  }

  /** No message exactly when the rules are admissible; the address check adds nothing to that. */
  lemma AdmittedIff(rules: seq<FQDNRule>, snoop: bool, v6: string -> bool)
    ensures (forall e :: !Violated(rules, snoop, v6, e)) <==> Admissible(rules, snoop)
  {
    hide IsFQDN, ParsesAsIP;
    EmptyIsNoFQDN();
    if Admissible(rules, snoop) {
      forall e ensures !Violated(rules, snoop, v6, e) {
        if e.rule < |rules| {
          var r := rules[e.rule];
          assert r in rules;
          NamesAreNoAddresses(r.pattern, v6);
          assert forall k | 0 <= k < e.rule :: Patterns(rules)[k] != Patterns(rules)[e.rule];
          assert forall j | 0 <= j < |r.ports| :: r.ports[j] in r.ports;
        }
      }
    }
    if forall e :: !Violated(rules, snoop, v6, e) {
      forall i | 0 <= i < |rules| ensures RuleFine(rules, snoop, i) {
        CleanRule(rules, snoop, v6, i);
      }
      FineRulesAdmissible(rules, snoop);
    }
  }

  lemma FineRulesAdmissible(rules: seq<FQDNRule>, snoop: bool)
    requires forall i | 0 <= i < |rules| :: RuleFine(rules, snoop, i)
    ensures Admissible(rules, snoop)
  {
    hide IsFQDN, PortsValid;
    forall r | r in rules ensures IsFQDN(r.pattern) && (IsWildcard(r.pattern) ==> snoop) && PortsValid(r.ports) {
      var i :| 0 <= i < |rules| && rules[i] == r;
      assert RuleFine(rules, snoop, i);
    }
    forall i, j | 0 <= i < j < |rules| ensures Patterns(rules)[i] != Patterns(rules)[j] {
      assert RuleFine(rules, snoop, j);
    }
  }

  predicate RuleFine(rules: seq<FQDNRule>, snoop: bool, i: nat)
    requires i < |rules|
  {
    var r := rules[i];
    && IsFQDN(r.pattern) && (IsWildcard(r.pattern) ==> snoop) && PortsValid(r.ports)
    && forall k | 0 <= k < i :: rules[k].pattern != r.pattern
  }

  lemma CleanRule(rules: seq<FQDNRule>, snoop: bool, v6: string -> bool, i: nat)
    requires i < |rules| && forall e :: !Violated(rules, snoop, v6, e)
    ensures RuleFine(rules, snoop, i)
  {
    hide IsFQDN, ParsesAsIP;
    assert !Violated(rules, snoop, v6, RuleError(i, MatchRequired));
    assert !Violated(rules, snoop, v6, RuleError(i, WildcardNeedsSnoop));
    assert !Violated(rules, snoop, v6, RuleError(i, NotAnFQDN));
    assert !Violated(rules, snoop, v6, RuleError(i, DuplicateMatch));
    var ports := rules[i].ports;
    forall p | p in ports ensures 1 <= p.port <= 65535 && p.protocol in PROTOCOLS {
      var j :| 0 <= j < |ports| && ports[j] == p;
      assert !Violated(rules, snoop, v6, RuleError(i, PortOutOfRange(j)));
      assert !Violated(rules, snoop, v6, RuleError(i, UnknownProtocol(j)));
    }
  }

  // ---- synthesized policies are admissible ----

  lemma {:induction false} SplitToLower(s: string)
    ensures |Split(ToLower(s))| == |Split(s)|
    ensures forall i | 0 <= i < |Split(s)| :: Split(ToLower(s))[i] == ToLower(Split(s)[i])
  {
    if s != "" {
      hide ToLower, Split;
      var l, tail := LowerChar(s[0]), s[1..];
      SplitToLower(tail);
      assert s == [s[0]] + tail && ToLower(s) == [l] + ToLower(tail);
      SplitCons(s[0], tail);
      SplitCons(l, ToLower(tail));
      var first := Split(tail)[0];
      assert ToLower([s[0]] + first) == [l] + ToLower(first);
    }
  }

  lemma LowerKeepsGrammar(p: string)
    ensures IsLabel(p) ==> IsLabel(ToLower(p))
    ensures IsTopLevel(p) ==> IsTopLevel(ToLower(p))
  {
    forall c | c in ToLower(p) ensures exists d | d in p :: c == LowerChar(d) {
      var i :| 0 <= i < |p| && ToLower(p)[i] == c;
      assert p[i] in p;
    }
  }

  /** A plain name starts with a letter or digit and ends with a letter. */
  lemma PlainEnds(s: string)
    requires PlainFQDN(s)
    ensures s != "" && LetterOrDigit(s[0]) && Letter(s[|s| - 1])
  {
    JoinSplit(s);
    var parts := Split(s);
    JoinEnds(parts);
    var last := parts[|parts| - 1];
    assert last[|last| - 1] in last;
  }

  lemma {:induction false} JoinEnds(parts: seq<string>)
    requires parts != [] && parts[0] != "" && parts[|parts| - 1] != ""
    ensures var s, last := Join(parts), parts[|parts| - 1];
            s != "" && s[0] == parts[0][0] && s[|s| - 1] == last[|last| - 1]
  {
    if |parts| > 1 {
      var last := parts[|parts| - 1];
      assert parts == parts[..|parts| - 1] + [last];
      JoinConcat(parts[..|parts| - 1], [last]);
    }
  }

  /** Normalising a plain name only lowers its case, and the result is again a plain name. */
  lemma PlainNorm(h: string)
    requires PlainFQDN(h)
    ensures Norm(h) == ToLower(h) && PlainFQDN(Norm(h)) && !IsWildcard(Norm(h)) && Norm(h) != ""
  {
    PlainEnds(h);
    LowerKeepsPlain(h);
    PlainEnds(ToLower(h));
    hide PlainFQDN, ToLower;
    assert TrimSpace(h) == h;
    assert ToLower(h)[|h| - 1] != '.' && ToLower(h)[0] != '*';
  }

  lemma LowerKeepsPlain(h: string)
    requires PlainFQDN(h)
    ensures PlainFQDN(ToLower(h))
  {
    SplitToLower(h);
    hide ToLower, Split, IsLabel, IsTopLevel;
    var parts, lower := Split(h), Split(ToLower(h));
    forall i | 0 <= i < |parts| - 1 ensures IsLabel(lower[i]) {
      LowerKeepsGrammar(parts[i]);
    }
    LowerKeepsGrammar(parts[|parts| - 1]);
  }

  /** The base domain of a plain name is a plain name: it keeps at least two labels. */
  lemma BaseIsPlain(h: string)
    requires PlainFQDN(Norm(h))
    ensures PlainFQDN(BaseDomain(h))
  {
    var parts := Split(Norm(h));
    var tail := parts[|parts| - BaseLabels(parts)..];
    BaseIsTail(h);
    forall p | p in tail ensures '.' !in p {
      assert p in parts;
    }
    SplitJoin(tail);
    hide BaseDomain, Split, Join;
  }

  lemma RuleIsFQDN(domains: seq<string>, threshold: int, rule: string)
    requires IsRule(domains, threshold, rule) && forall d | d in domains :: PlainFQDN(d)
    ensures IsFQDN(rule)
  {
    hide RolledUp, Norm, BaseDomain, PlainFQDN;
    if rule in Distinct(domains) {
      var d :| d in domains && rule == Norm(d);
      PlainNorm(d);
    } else {
      var base :| base in Bases(domains) && rule == "*." + base;
      var s :| s in Distinct(domains) && base == BaseDomain(s);
      var d :| d in domains && s == Norm(d);
      PlainNorm(d);
      PlainNorm(s);
      BaseIsPlain(s);
      assert rule[2..] == base;
    }
  }

  /**
   * Whatever was observed, if its external names are plain names the generated rules are admitted:
   * always with the snoop resolver, and without it exactly when no wildcard was generated.
   */
  lemma SynthesizedRulesAdmitted(observed: seq<ObservedDomain>, threshold: int, rules: seq<FQDNRule>, snoop: bool)
    requires IsSynthesis(observed, threshold, rules)
    requires forall d | d in observed && External(d) :: PlainFQDN(d.hostname)
    ensures StrictlySorted(Patterns(rules)) && NoDuplicates(Patterns(rules))
    ensures Admissible(rules, snoop) <==> snoop || forall r | r in rules :: !IsWildcard(r.pattern)
  {
    hide PlainFQDN, IsRule, IsFQDN, External, StrictlySorted;
    var domains := Names(Filter(observed, External));
    forall h | h in domains ensures PlainFQDN(h) {
      var i :| 0 <= i < |domains| && domains[i] == h;
      assert Filter(observed, External)[i] in Filter(observed, External);
    }
    StrictlySortedIsDistinct(Patterns(rules));
    forall r | r in rules ensures IsFQDN(r.pattern) && PortsValid(r.ports) {
      var i :| 0 <= i < |rules| && rules[i] == r;
      assert Patterns(rules)[i] == r.pattern;
      RuleIsFQDN(domains, EffectiveThreshold(threshold), r.pattern);
    }
  }
}
