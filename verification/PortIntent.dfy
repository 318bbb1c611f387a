/** The pooled port list of a generated object, compared with the ports each rule asked for. */
module PortIntent {
  import opened Strings
  import opened Addresses
  import opened Policies
  import opened NetPol

  /** The address was recorded for this rule's hostname. */
  ghost predicate RuleRecords(parse: Parser, hosts: seq<ResolvedHost>, rule: FQDNRule, a: Addr) {
    exists h, ip | h in hosts && ip in h.ips :: h.hostname == rule.pattern && parse(ip) == Some(a)
  }

  /** What the rules say one by one: an address of the rule's own host, on the rule's own ports. */
  ghost predicate Intended(parse: Parser, fp: ResolvedPolicy, t: Traffic) {
    exists rule | rule in fp.egress ::
      RuleRecords(parse, fp.hosts, rule, t.dest) && PortMatches(NetPorts(rule.ports), t)
  }

  /** Every recorded host belongs to a rule. */
  ghost predicate HostsFromRules(fp: ResolvedPolicy) {
    forall h | h in fp.hosts :: exists rule | rule in fp.egress :: rule.pattern == h.hostname
  }

  lemma {:induction false} PooledFromRules(egress: seq<FQDNRule>, p: NetPort)
    ensures p in PooledPorts(egress) <==> exists rule | rule in egress :: p in NetPorts(rule.ports)
  {
    if egress != [] {
      PooledFromRules(egress[..|egress| - 1], p);
      assert egress == egress[..|egress| - 1] + [egress[|egress| - 1]];
    }
  }

  /** The pooled ports are those the rules list, TCP where a rule names no protocol. */
  lemma PooledPortsMeaning(egress: seq<FQDNRule>, p: NetPort)
    ensures p in PooledPorts(egress) <==>
              exists rule, q | rule in egress && q in rule.ports ::
                p.port == q.port && (q.protocol == "" ==> p.protocol == "TCP")
                && (q.protocol != "" ==> p.protocol == q.protocol)
  {
    PooledFromRules(egress, p);
    forall rule, q | rule in egress && q in rule.ports
        && p.port == q.port && p.protocol == (if q.protocol == "" then "TCP" else q.protocol)
      ensures p in NetPorts(rule.ports)
    {
      var i :| 0 <= i < |rule.ports| && rule.ports[i] == q;
      assert NetPorts(rule.ports)[i] == p;
    }
    if rule :| rule in egress && p in NetPorts(rule.ports) {
      var i :| 0 <= i < |rule.ports| && NetPorts(rule.ports)[i] == p;
      assert rule.ports[i] in rule.ports;
    }
  }

  lemma {:induction false} NoPooledPorts(egress: seq<FQDNRule>)
    ensures PooledPorts(egress) == [] <==> forall rule | rule in egress :: rule.ports == []
  {
    if egress != [] {
      NoPooledPorts(egress[..|egress| - 1]);
      assert egress == egress[..|egress| - 1] + [egress[|egress| - 1]];
    }
  }

  lemma RecordedByRule(parse: Parser, hosts: seq<ResolvedHost>, rule: FQDNRule, a: Addr)
    requires RuleRecords(parse, hosts, rule, a)
    ensures Recorded(parse, hosts, a) && !NoAddresses(hosts) && hosts != []
  {
  }

  /**
   * The generated object covers everything the rules intend exactly when no rule has ports at all,
   * or every rule without ports has no recorded address: one rule's ports restrict a portless rule.
   */
  lemma IntentCoveredIff(parse: Parser, fp: ResolvedPolicy)
    ensures (forall t | Intended(parse, fp, t) :: Allows(parse, Built(parse, fp).egress, t))
            <==> || (forall rule | rule in fp.egress :: rule.ports == [])
                 || (forall rule, a | rule in fp.egress && rule.ports == [] :: !RuleRecords(parse, fp.hosts, rule, a))
  {
    var pooled := PooledPorts(fp.egress);
    NoPooledPorts(fp.egress);
    if pooled == [] || forall rule, a | rule in fp.egress && rule.ports == [] ::
        !RuleRecords(parse, fp.hosts, rule, a) {
      forall t | Intended(parse, fp, t) ensures Allows(parse, Built(parse, fp).egress, t) {
        var rule :| rule in fp.egress && RuleRecords(parse, fp.hosts, rule, t.dest)
            && PortMatches(NetPorts(rule.ports), t);
        RecordedByRule(parse, fp.hosts, rule, t.dest);
        PooledFromRules(fp.egress, NetPort(t.protocol, t.port));
        BuildDenotes(parse, fp, t);
      }
    } else {
      var rule, a :| rule in fp.egress && rule.ports == [] && RuleRecords(parse, fp.hosts, rule, a);
      var port := FreshPort(set p | p in pooled);
      var t := Traffic(a, "TCP", port);
      assert NetPort("TCP", port) !in pooled;
      assert PortMatches(NetPorts(rule.ports), t);
      BuildDenotes(parse, fp, t);
      assert Intended(parse, fp, t) && !Allows(parse, Built(parse, fp).egress, t);
    }
  }

  /** Some rule that records the address lists the port, or lists no ports. */
  ghost predicate Listed(parse: Parser, fp: ResolvedPolicy, a: Addr, p: NetPort) {
    exists rule | rule in fp.egress ::
        RuleRecords(parse, fp.hosts, rule, a) && (rule.ports == [] || p in NetPorts(rule.ports))
  }

  /** Every pooled port beyond DNS is listed for every recorded address. */
  ghost predicate EveryPortListed(parse: Parser, fp: ResolvedPolicy) {
    forall a, p | Recorded(parse, fp.hosts, a) && p in PooledPorts(fp.egress) && p !in DNS_PORTS ::
        Listed(parse, fp, a, p)
  }

  /**
   * The generated object opens nothing but DNS beyond the intent exactly when no host is recorded, or
   * some address is and every pooled port is listed for every recorded address, or none is and no port
   * beyond DNS is pooled.
   */
  lemma OnlyDNSAddedIff(parse: Parser, fp: ResolvedPolicy)
    requires HostsFromRules(fp)
    ensures (forall t | Allows(parse, Built(parse, fp).egress, t) && !IsDNS(t) :: Intended(parse, fp, t))
            <==> || fp.hosts == []
                 || (!NoAddresses(fp.hosts) && EveryPortListed(parse, fp))
                 || (NoAddresses(fp.hosts) && PortGrant(PooledPorts(fp.egress)) == NoPorts)
  {
    if NoAddresses(fp.hosts) {
      NothingIntended(parse, fp);
      ConfinedIffAddressed(parse, fp);
    } else if EveryPortListed(parse, fp) {
      forall t | Allows(parse, Built(parse, fp).egress, t) && !IsDNS(t) ensures Intended(parse, fp, t) {
        BuildDenotes(parse, fp, t);
        BackedTraffic(parse, fp, t);
      }
    } else {
      var t := UnlistedTraffic(parse, fp);
    }
  }

  /** Without any address recorded the rules intend nothing, and nothing is recorded. */
  lemma NothingIntended(parse: Parser, fp: ResolvedPolicy)
    requires NoAddresses(fp.hosts)
    ensures forall t :: !Intended(parse, fp, t) && !Recorded(parse, fp.hosts, t.dest)
  {
  }

  lemma UnlistedTraffic(parse: Parser, fp: ResolvedPolicy) returns (t: Traffic)
    requires !NoAddresses(fp.hosts) && !EveryPortListed(parse, fp)
    ensures Allows(parse, Built(parse, fp).egress, t) && !IsDNS(t) && !Intended(parse, fp, t)
  {
    var a, p :| Recorded(parse, fp.hosts, a) && p in PooledPorts(fp.egress) && p !in DNS_PORTS
        && !Listed(parse, fp, a, p);
    t := Traffic(a, p.protocol, p.port);
    BuildDenotes(parse, fp, t);
  }

  lemma BackedTraffic(parse: Parser, fp: ResolvedPolicy, t: Traffic)
    requires HostsFromRules(fp) && Recorded(parse, fp.hosts, t.dest) && PortMatches(PooledPorts(fp.egress), t)
             && !IsDNS(t)
    requires EveryPortListed(parse, fp)
    ensures Intended(parse, fp, t)
  {
    var p := NetPort(t.protocol, t.port);
    NoPooledPorts(fp.egress);
    if PooledPorts(fp.egress) == [] {
      var h, ip :| h in fp.hosts && ip in h.ips && parse(ip) == Some(t.dest);
      var rule :| rule in fp.egress && rule.pattern == h.hostname;
      assert RuleRecords(parse, fp.hosts, rule, t.dest) && PortMatches(NetPorts(rule.ports), t);
    } else {
      assert p in PooledPorts(fp.egress) && p !in DNS_PORTS && Listed(parse, fp, t.dest, p);
    }
  }

  ghost predicate UniformPorts(egress: seq<FQDNRule>) {
    forall r, s, p | r in egress && s in egress :: p in NetPorts(r.ports) <==> p in NetPorts(s.ports)
  }

  lemma UniformAllListed(parse: Parser, fp: ResolvedPolicy)
    requires HostsFromRules(fp) && UniformPorts(fp.egress)
    ensures EveryPortListed(parse, fp)
  {
    forall a, p | Recorded(parse, fp.hosts, a) && p in PooledPorts(fp.egress) ensures Listed(parse, fp, a, p) {
      PooledFromRules(fp.egress, p);
      var h, ip :| h in fp.hosts && ip in h.ips && parse(ip) == Some(a);
      var rule :| rule in fp.egress && rule.pattern == h.hostname;
      assert RuleRecords(parse, fp.hosts, rule, a);
    }
  }

  lemma UniformCovered(parse: Parser, fp: ResolvedPolicy)
    requires UniformPorts(fp.egress)
    ensures forall t | Intended(parse, fp, t) :: Allows(parse, Built(parse, fp).egress, t)
  {
    if exists r | r in fp.egress :: r.ports != [] {
      var r :| r in fp.egress && r.ports != [];
      forall s | s in fp.egress ensures s.ports != [] {
        assert NetPorts(r.ports)[0] in NetPorts(r.ports);
        assert NetPorts(r.ports)[0] in NetPorts(s.ports);
      }
    }
    IntentCoveredIff(parse, fp);
  }

  /**
   * When all rules list the same ports, the object allows exactly the intent and DNS, for every status
   * but one with hosts and no address, and for that one exactly if no port beyond DNS is pooled.
   */
  lemma UniformPortsExact(parse: Parser, fp: ResolvedPolicy)
    requires HostsFromRules(fp) && UniformPorts(fp.egress)
    ensures (forall t :: Allows(parse, Built(parse, fp).egress, t) <==> IsDNS(t) || Intended(parse, fp, t))
            <==> fp.hosts == [] || !NoAddresses(fp.hosts) || PortGrant(PooledPorts(fp.egress)) == NoPorts
  {
    UniformAllListed(parse, fp);
    UniformCovered(parse, fp);
    OnlyDNSAddedIff(parse, fp);
    hide UniformPorts, HostsFromRules, Intended, EveryPortListed, Built, Allows;
    forall t | IsDNS(t) ensures Allows(parse, Built(parse, fp).egress, t) {
      BuildDenotes(parse, fp, t);
    }
  }

  /** A concrete widening: of two rules, on ports 443 and 80, each one's address is reachable on both. */
  lemma PooledPortsWiden(parse: Parser, host: ResolvedHost, ip: string)
    requires host.hostname == "a" && host.ips == [ip] && parse(ip).Some?
    ensures var rules := [FQDNRule("a", [PolicyPort("TCP", 443)]), FQDNRule("b", [PolicyPort("TCP", 80)])];
            var fp := ResolvedPolicy("p", "ns", LabelSelector(map[], []), rules, [host]);
            var t := Traffic(parse(ip).value, "TCP", 80);
            !Intended(parse, fp, t) && Allows(parse, Built(parse, fp).egress, t)
  {
    var a, b := FQDNRule("a", [PolicyPort("TCP", 443)]), FQDNRule("b", [PolicyPort("TCP", 80)]);
    var rules := [a, b];
    var fp := ResolvedPolicy("p", "ns", LabelSelector(map[], []), rules, [host]);
    var t := Traffic(parse(ip).value, "TCP", 80);
    assert host in fp.hosts && ip in host.ips && b in rules && "a" != "b";
    assert NetPorts(b.ports)[0] == NetPort("TCP", 80) && NetPorts(b.ports)[0] in NetPorts(b.ports);
    assert forall p | p in NetPorts(a.ports) :: p.port == 443;
    PooledFromRules(rules, NetPort("TCP", 80));
    BuildDenotes(parse, fp, t);
  }

  /** A concrete loss: beside a rule with port 443, a rule without ports no longer reaches port 80. */
  lemma PortlessRuleRestricted(parse: Parser, host: ResolvedHost, ip: string)
    requires host.hostname == "a" && host.ips == [ip] && parse(ip).Some?
    ensures var rules := [FQDNRule("a", []), FQDNRule("b", [PolicyPort("TCP", 443)])];
            var fp := ResolvedPolicy("p", "ns", LabelSelector(map[], []), rules, [host]);
            var t := Traffic(parse(ip).value, "TCP", 80);
            Intended(parse, fp, t) && !Allows(parse, Built(parse, fp).egress, t)
  {
    var open, web := FQDNRule("a", []), FQDNRule("b", [PolicyPort("TCP", 443)]);
    var rules := [open, web];
    var fp := ResolvedPolicy("p", "ns", LabelSelector(map[], []), rules, [host]);
    var t := Traffic(parse(ip).value, "TCP", 80);
    assert open in rules && web in rules && host in fp.hosts && ip in host.ips;
    assert RuleRecords(parse, fp.hosts, open, t.dest) && PortMatches(NetPorts(open.ports), t);
    NoPooledPorts(rules);
    PooledFromRules(rules, NetPort("TCP", 80));
    assert forall p | p in NetPorts(web.ports) :: p.port == 443;
    BuildDenotes(parse, fp, t);
  }
}
