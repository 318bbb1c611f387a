/** The two address filters a resolution passes through: resolver consensus, then blocked ranges. */
module IPFilter {
  import opened Strings
  import opened Addresses

  /** The pointers of `SecuritySpec`; `None` is an unset field. */
  datatype SecuritySpec = SecuritySpec(
    maxCNAMEDepth: Option<int>,
    blockPrivateIPs: Option<bool>,
    blockLoopback: Option<bool>,
    blockLinkLocal: Option<bool>,
    blockOnDivergence: Option<bool>,
    minResolverAgreement: Option<int>)

  datatype Field = BlockLoopback | BlockPrivateIPs | BlockLinkLocal
  datatype BlockedIP = BlockedIP(ip: string, cidr: Net, field: Field)
  datatype RejectedIP = RejectedIP(ip: string, agreement: nat, required: int)

  // ---- blocked ranges ----

  /** A category is active unless the spec says `false` explicitly. */
  predicate Enabled(sec: Option<SecuritySpec>, field: Field) {
    sec.Some? ==>
      var flag := match field
        case BlockLoopback => sec.value.blockLoopback
        case BlockPrivateIPs => sec.value.blockPrivateIPs
        case BlockLinkLocal => sec.value.blockLinkLocal;
      flag != Some(false)
  }

  function Nets(field: Field): seq<Net> {
    match field
    case BlockLoopback => LOOPBACK_NETS
    case BlockPrivateIPs => PRIVATE_NETS
    case BlockLinkLocal => LINK_LOCAL_NETS
  }

  /** The address lies in a range that the spec blocks, by the published intervals. */
  predicate InBlockedRange(sec: Option<SecuritySpec>, a: Addr) {
    || (Enabled(sec, BlockLoopback) && InLoopbackRange(a))
    || (Enabled(sec, BlockPrivateIPs) && InPrivateRange(a))
    || (Enabled(sec, BlockLinkLocal) && InLinkLocalRange(a))
  }

  /** Text that does not parse passes the filter. */
  predicate Passes(parse: Parser, sec: Option<SecuritySpec>, ip: string) {
    parse(ip).Some? ==> !InBlockedRange(sec, parse(ip).value)
  }

  /** Every published range that holds the address is one for which the spec says `false` outright. */
  ghost predicate OptedOut(sec: Option<SecuritySpec>, a: Addr) {
    && (InLoopbackRange(a) ==> sec.Some? && sec.value.blockLoopback == Some(false))
    && (InPrivateRange(a) ==> sec.Some? && sec.value.blockPrivateIPs == Some(false))
    && (InLinkLocalRange(a) ==> sec.Some? && sec.value.blockLinkLocal == Some(false))
  }

  /** Setting one flag to `false` lets exactly the addresses of its own range through, and no others. */
  lemma OptOutIsExact(parse: Parser, spec: SecuritySpec, ip: string, a: Addr)
    requires parse(ip) == Some(a)
    ensures var laxer := spec.(blockLoopback := Some(false));
            Passes(parse, Some(laxer), ip) <==> Passes(parse, Some(spec), ip) || InLoopbackRange(a)
    ensures var laxer := spec.(blockPrivateIPs := Some(false));
            Passes(parse, Some(laxer), ip) <==> Passes(parse, Some(spec), ip) || InPrivateRange(a)
    ensures var laxer := spec.(blockLinkLocal := Some(false));
            Passes(parse, Some(laxer), ip) <==> Passes(parse, Some(spec), ip) || InLinkLocalRange(a)
  {
  }

  /** Without a spec, or with no flag set to `false`, exactly the addresses outside all three ranges pass. */
  lemma BlockedByDefault(parse: Parser, sec: Option<SecuritySpec>, ip: string, a: Addr)
    requires parse(ip) == Some(a)
    requires sec.Some? ==> && sec.value.blockLoopback != Some(false) && sec.value.blockPrivateIPs != Some(false)
                           && sec.value.blockLinkLocal != Some(false)
    ensures Passes(parse, sec, ip) <==> !InLoopbackRange(a) && !InPrivateRange(a) && !InLinkLocalRange(a)
  {
  }

  /** The record names a range that is enabled and really holds the address. */
  ghost predicate JustlyBlocked(parse: Parser, sec: Option<SecuritySpec>, b: BlockedIP) {
    && parse(b.ip).Some?
    && Enabled(sec, b.field)
    && b.cidr in Nets(b.field)
    && b.cidr.Contains(parse(b.ip).value)
  }

  function BlockedTexts(bs: seq<BlockedIP>): (r: seq<string>)
    ensures |r| == |bs| && forall i | 0 <= i < |bs| :: r[i] == bs[i].ip
  {
    seq(|bs|, i requires 0 <= i < |bs| => bs[i].ip)
  }

  /** The category check of one address, in the order loopback, private, link-local. */
  method BlockingNet(parse: Parser, sec: Option<SecuritySpec>, ip: string, a: Addr) returns (r: Option<BlockedIP>)
    requires parse(ip) == Some(a)
    ensures r.None? <==> Passes(parse, sec, ip)
    ensures r.None? <==> OptedOut(sec, a)
    ensures r.Some? ==> r.value.ip == ip && JustlyBlocked(parse, sec, r.value)
  {
    TablesMatchRanges(a);
    if Enabled(sec, BlockLoopback) {
      var n := MatchingCIDR(a, LOOPBACK_NETS);
      if n.Some? { return Some(BlockedIP(ip, n.value, BlockLoopback)); }
    }
    if Enabled(sec, BlockPrivateIPs) {
      var n := MatchingCIDR(a, PRIVATE_NETS);
      if n.Some? { return Some(BlockedIP(ip, n.value, BlockPrivateIPs)); }
    }
    if Enabled(sec, BlockLinkLocal) {
      var n := MatchingCIDR(a, LINK_LOCAL_NETS);
      if n.Some? { return Some(BlockedIP(ip, n.value, BlockLinkLocal)); }
    }
    return None;
  }

  method FilterBlockedIPs(parse: Parser, ips: seq<string>, sec: Option<SecuritySpec>)
    returns (allowed: seq<string>, blocked: seq<BlockedIP>)
    ensures allowed == Filter(ips, ip => Passes(parse, sec, ip))
    ensures BlockedTexts(blocked) == Filter(ips, ip => !Passes(parse, sec, ip))
    ensures forall b | b in blocked :: JustlyBlocked(parse, sec, b)
    ensures forall ip :: ip in allowed <==> ip in ips && (parse(ip).Some? ==> OptedOut(sec, parse(ip).value))
    ensures forall ip :: ip in BlockedTexts(blocked) <==>
              ip in ips && parse(ip).Some? && !OptedOut(sec, parse(ip).value)
  {
    allowed, blocked := [], [];
    for i := 0 to |ips|
      invariant allowed == Filter(ips[..i], ip => Passes(parse, sec, ip))
      invariant BlockedTexts(blocked) == Filter(ips[..i], ip => !Passes(parse, sec, ip))
      invariant forall b | b in blocked :: JustlyBlocked(parse, sec, b)
    {
      assert ips[..i + 1][..i] == ips[..i];
      var ip := ips[i];
      var parsed := parse(ip);
      if parsed.None? {
        allowed := allowed + [ip];
        continue;
      }
      var block := BlockingNet(parse, sec, ip, parsed.value);
      if block.Some? {
        blocked := blocked + [block.value];
        assert BlockedTexts(blocked) == BlockedTexts(blocked[..|blocked| - 1]) + [ip];
        continue;
      }
      allowed := allowed + [ip];
    }
    assert ips[..|ips|] == ips;
  }

  // ---- resolver consensus ----

  /** How often the resolvers, taken together, returned `ip`. */
  ghost function Agreement(results: map<string, seq<string>>, ip: string): nat {
    if results == map[] then 0
    else
      var u :| u in results;
      multiset(results[u])[ip] + Agreement(results - {u}, ip)
  }

  /** The sum does not depend on the order in which resolvers are visited. */
  lemma {:induction false} AgreementSplit(results: map<string, seq<string>>, u: string, ip: string)
    requires u in results
    ensures Agreement(results, ip) == multiset(results[u])[ip] + Agreement(results - {u}, ip)
  {
    var v :| v in results && Agreement(results, ip) == multiset(results[v])[ip] + Agreement(results - {v}, ip);
    if v != u {
      AgreementSplit(results - {v}, u, ip);
      AgreementSplit(results - {u}, v, ip);
      assert results - {v} - {u} == results - {u} - {v};
    }
  }

  /** The resolvers that returned `ip`. */
  ghost function Witnesses(results: map<string, seq<string>>, ip: string): set<string> {
    set u | u in results && ip in results[u]
  }

  /** When no resolver repeats an address, agreement is the number of resolvers that returned it. */
  lemma {:induction false} AgreementCountsResolvers(results: map<string, seq<string>>, ip: string)
    requires forall u | u in results :: NoDuplicates(results[u])
    ensures Agreement(results, ip) == |Witnesses(results, ip)|
  {
    if results != map[] {
      var u :| u in results;
      AgreementSplit(results, u, ip);
      AgreementCountsResolvers(results - {u}, ip);
      NoDuplicatesMultiset(results[u]);
      if ip in results[u] {
        assert Witnesses(results, ip) == Witnesses(results - {u}, ip) + {u};
      } else {
        assert Witnesses(results, ip) == Witnesses(results - {u}, ip);
      }
    } else {
      assert Witnesses(results, ip) == {};
    }
  }

  ghost predicate Agreed(results: map<string, seq<string>>, minAgreement: int, ip: string) {
    Agreement(results, ip) >= minAgreement
  }

  /** What consensus keeps: everything when it is off or there is no per-resolver data to check. */
  ghost function ConsensusKept(ips: seq<string>, results: map<string, seq<string>>, minAgreement: int): seq<string> {
    if results == map[] || minAgreement <= 1 then ips
    else Filter(ips, ip => Agreed(results, minAgreement, ip))
  }

  function RejectedTexts(rs: seq<RejectedIP>): (r: seq<string>)
    ensures |r| == |rs| && forall i | 0 <= i < |rs| :: r[i] == rs[i].ip
  {
    seq(|rs|, i requires 0 <= i < |rs| => rs[i].ip)
  }

  function Count(m: map<string, nat>, ip: string): nat {
    if ip in m then m[ip] else 0
  }

  lemma TailCount(ips: seq<string>, i: nat, ip: string)
    requires i < |ips|
    ensures multiset(ips[i..])[ip] == (if ips[i] == ip then 1 else 0) + multiset(ips[i + 1..])[ip]
  {
    assert ips[i..] == [ips[i]] + ips[i + 1..];
  }

  /** The inner loop of the counting pass: one resolver's addresses. */
  method CountResolver(before: map<string, nat>, ips: seq<string>) returns (agreement: map<string, nat>)
    ensures forall ip :: Count(agreement, ip) == Count(before, ip) + multiset(ips)[ip]
  {
    agreement := before;
    assert ips[0..] == ips;
    for i := 0 to |ips|
      invariant forall ip :: Count(agreement, ip) + multiset(ips[i..])[ip] == Count(before, ip) + multiset(ips)[ip]
    {
      forall ip { TailCount(ips, i, ip); }
      agreement := agreement[ips[i] := Count(agreement, ips[i]) + 1];
    }
  }

  /** The counting pass of consensus mode, over resolvers in any order. */
  method CountAgreement(results: map<string, seq<string>>) returns (agreement: map<string, nat>)
    ensures forall ip :: Count(agreement, ip) == Agreement(results, ip)
  {
    agreement := map[];
    var todo := results;
    while todo != map[]
      invariant forall ip :: Count(agreement, ip) + Agreement(todo, ip) == Agreement(results, ip)
      decreases |todo|
    {
      hide Agreement, Count;
      var u :| u in todo;
      forall ip { AgreementSplit(todo, u, ip); }
      agreement := CountResolver(agreement, todo[u]);
      todo := todo - {u};
    }
  }

  method FilterByConsensus(ips: seq<string>, results: map<string, seq<string>>, minAgreement: int)
    returns (allowed: seq<string>, rejected: seq<RejectedIP>)
    ensures allowed == ConsensusKept(ips, results, minAgreement)
    ensures results == map[] || minAgreement <= 1 ==> allowed == ips
    ensures results != map[] && minAgreement > 1 ==>
              forall ip :: ip in allowed <==> ip in ips && Agreement(results, ip) >= minAgreement
    ensures results == map[] || minAgreement <= 1 ==> rejected == []
    ensures results != map[] && minAgreement > 1 ==>
              RejectedTexts(rejected) == Filter(ips, ip => !Agreed(results, minAgreement, ip))
    ensures forall r | r in rejected :: r.agreement == Agreement(results, r.ip) < minAgreement == r.required
  {
    if results == map[] || minAgreement <= 1 {
      return ips, [];
    }
    var agreement := CountAgreement(results);
    allowed, rejected := [], [];
    for i := 0 to |ips|
      invariant allowed == Filter(ips[..i], ip => Agreed(results, minAgreement, ip))
      invariant RejectedTexts(rejected) == Filter(ips[..i], ip => !Agreed(results, minAgreement, ip))
      invariant forall r | r in rejected :: r.agreement == Agreement(results, r.ip) < minAgreement == r.required
    {
      assert ips[..i + 1][..i] == ips[..i];
      var count := Count(agreement, ips[i]);
      if count >= minAgreement {
        allowed := allowed + [ips[i]];
      } else {
        rejected := rejected + [RejectedIP(ips[i], count, minAgreement)];
        assert RejectedTexts(rejected) == RejectedTexts(rejected[..|rejected| - 1]) + [ips[i]];
      }
    }
    assert ips[..|ips|] == ips;
  }

  /** A stricter threshold never lets more through. */
  lemma ConsensusMonotone(ips: seq<string>, results: map<string, seq<string>>, low: int, high: int, ip: string)
    requires low <= high && ip in ConsensusKept(ips, results, high)
    ensures ip in ConsensusKept(ips, results, low)
  {
  }
}
