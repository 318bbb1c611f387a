/** Turning resolved hosts into a NetworkPolicy, and what the generated object allows. */
module NetPol {
  import opened Strings
  import opened Addresses
  import opened Policies

  // ---- helpers.go ----

  /** A host route for the address text: /128 for text that parses as IPv6, else /32. */
  function HostCIDR(parse: Parser, ip: string): string {
    if parse(ip).Some? && parse(ip).value.V6? then ip + "/128" else ip + "/32"
  }

  function ProtocolOf(protocol: string): string {
    if protocol == "" then "TCP" else protocol
  }

  function OwnerName(policyName: string): string {
    "fqdnnp-" + policyName
  }

  // ---- what Build computes ----

  function HostPeers(parse: Parser, ips: seq<string>): (r: seq<string>)
    ensures |r| == |ips| && forall i | 0 <= i < |ips| :: r[i] == HostCIDR(parse, ips[i])
  {
    seq(|ips|, i requires 0 <= i < |ips| => HostCIDR(parse, ips[i]))
  }

  function Peers(parse: Parser, hosts: seq<ResolvedHost>): seq<string> {
    if hosts == [] then []
    else Peers(parse, hosts[..|hosts| - 1]) + HostPeers(parse, hosts[|hosts| - 1].ips)
  }

  function NetPorts(ports: seq<PolicyPort>): (r: seq<NetPort>)
    ensures |r| == |ports|
    ensures forall i | 0 <= i < |ports| :: r[i] == NetPort(ProtocolOf(ports[i].protocol), ports[i].port)
  {
    seq(|ports|, i requires 0 <= i < |ports| => NetPort(ProtocolOf(ports[i].protocol), ports[i].port))
  }

  /** The ports of all rules in one list: rules do not keep their own ports. */
  function PooledPorts(egress: seq<FQDNRule>): seq<NetPort> {
    if egress == [] then []
    else PooledPorts(egress[..|egress| - 1]) + NetPorts(egress[|egress| - 1].ports)
  }

  const DNS_RULE := EgressRule([], [NetPort("UDP", 53), NetPort("TCP", 53)])

  function Labels(policyName: string): map<string, string> {
    map["netsec.kunal.dev/managed-by" := "fqdn-network-policy", "netsec.kunal.dev/fqdnnetworkpolicy" := policyName]
  }

  function Built(parse: Parser, fp: ResolvedPolicy): (np: NetworkPolicy)
    ensures np.name == OwnerName(fp.name) && np.namespace == fp.namespace
  {
    NetworkPolicy(OwnerName(fp.name), fp.namespace, Labels(fp.name), fp.podSelector,
                  if fp.hosts == [] then [DNS_RULE]
                  else [EgressRule(Peers(parse, fp.hosts), PooledPorts(fp.egress)), DNS_RULE])
  }

  method CollectPorts(fp: ResolvedPolicy) returns (ports: seq<NetPort>)
    ensures ports == PooledPorts(fp.egress)
  {
    ports := [];
    for i := 0 to |fp.egress|
      invariant ports == PooledPorts(fp.egress[..i])
    {
      var rule := fp.egress[i];
      assert fp.egress[..i + 1][..i] == fp.egress[..i];
      ghost var before := ports;
      for j := 0 to |rule.ports|
        invariant ports == before + NetPorts(rule.ports)[..j]
      {
        var p := rule.ports[j];
        ports := ports + [NetPort(ProtocolOf(p.protocol), p.port)];
      }
    }
    assert fp.egress[..|fp.egress|] == fp.egress;
  }

  method Build(parse: Parser, fp: ResolvedPolicy) returns (np: NetworkPolicy)
    ensures np == Built(parse, fp)
    ensures np.name == "fqdnnp-" + fp.name && np.namespace == fp.namespace && np.podSelector == fp.podSelector
    ensures np.labels == map["netsec.kunal.dev/managed-by" := "fqdn-network-policy",
                             "netsec.kunal.dev/fqdnnetworkpolicy" := fp.name]
  {
    if |fp.hosts| == 0 {
      return NetworkPolicy(OwnerName(fp.name), fp.namespace, Labels(fp.name), fp.podSelector, [DNS_RULE]);
    }
    var peers: seq<string> := [];
    for i := 0 to |fp.hosts|
      invariant peers == Peers(parse, fp.hosts[..i])
    {
      var ips := fp.hosts[i].ips;
      assert fp.hosts[..i + 1][..i] == fp.hosts[..i];
      ghost var before := peers;
      for j := 0 to |ips|
        invariant peers == before + HostPeers(parse, ips)[..j]
      {
        peers := peers + [HostCIDR(parse, ips[j])];
      }
    }
    assert fp.hosts[..|fp.hosts|] == fp.hosts;
    var ports := CollectPorts(fp);
    np := NetworkPolicy(OwnerName(fp.name), fp.namespace, Labels(fp.name), fp.podSelector,
                        [EgressRule(peers, ports), DNS_RULE]);
  }

  // ---- what a NetworkPolicy allows ----

  /** One packet a selected pod may want to send. */
  datatype Traffic = Traffic(dest: Addr, protocol: string, port: int)

  /** The prefix a CIDR text denotes, for the two suffixes that are ever generated. */
  function ParseCIDR(parse: Parser, cidr: string): Option<Net> {
    if |cidr| >= 3 && cidr[|cidr| - 3..] == "/32" then
      var a := parse(cidr[..|cidr| - 3]);
      if a.Some? then Some(Net(a.value, 32)) else None
    else if |cidr| >= 4 && cidr[|cidr| - 4..] == "/128" then
      var a := parse(cidr[..|cidr| - 4]);
      if a.Some? then Some(Net(a.value, 128)) else None
    else None
  }

  predicate PeerMatches(parse: Parser, cidr: string, a: Addr) {
    ParseCIDR(parse, cidr).Some? && ParseCIDR(parse, cidr).value.Contains(a)
  }

  /** No peers at all means any destination. */
  predicate DestinationMatches(parse: Parser, to: seq<string>, a: Addr) {
    to == [] || exists c | c in to :: PeerMatches(parse, c, a)
  }

  /** No ports at all means every port of every protocol. */
  predicate PortMatches(ports: seq<NetPort>, t: Traffic) {
    ports == [] || NetPort(t.protocol, t.port) in ports
  }

  /** A pod selected by an egress policy may send exactly what some rule matches. */
  predicate Allows(parse: Parser, egress: seq<EgressRule>, t: Traffic) {
    exists r | r in egress :: DestinationMatches(parse, r.to, t.dest) && PortMatches(r.ports, t)
  }

  predicate IsDNS(t: Traffic) {
    t.port == 53 && (t.protocol == "UDP" || t.protocol == "TCP")
  }

  /** Some recorded host carries a text of this address. */
  ghost predicate Recorded(parse: Parser, hosts: seq<ResolvedHost>, a: Addr) {
    exists h, ip | h in hosts && ip in h.ips :: parse(ip) == Some(a)
  }

  ghost predicate NoAddresses(hosts: seq<ResolvedHost>) {
    forall h | h in hosts :: h.ips == []
  }

  lemma SuffixesParse(parse: Parser, ip: string)
    ensures ParseCIDR(parse, ip + "/32") == if parse(ip).Some? then Some(Net(parse(ip).value, 32)) else None
    ensures ParseCIDR(parse, ip + "/128") == if parse(ip).Some? then Some(Net(parse(ip).value, 128)) else None
  {
    var short, long := ip + "/32", ip + "/128";
    assert short[|short| - 3..] == "/32" && short[..|short| - 3] == ip;
    assert long[|long| - 4..] == "/128" && long[..|long| - 4] == ip;
    assert long[|long| - 1] == '8' && long[|long| - 3..][2] == '8';
  }

  lemma HostCIDRDenotesHost(parse: Parser, ip: string, a: Addr)
    ensures PeerMatches(parse, HostCIDR(parse, ip), a) <==> parse(ip) == Some(a)
  {
    hide ParseCIDR, Net.Contains;
    SuffixesParse(parse, ip);
    if parse(ip).Some? {
      HostPrefix(parse(ip).value, a);
    }
  }

  /** The peers are the host routes of the recorded texts, and nothing else. */
  lemma {:induction false} PeersOfHosts(parse: Parser, hosts: seq<ResolvedHost>, c: string)
    ensures c in Peers(parse, hosts) <==> exists h, ip | h in hosts && ip in h.ips :: c == HostCIDR(parse, ip)
  {
    if hosts != [] {
      var n := |hosts| - 1;
      PeersOfHosts(parse, hosts[..n], c);
      assert hosts == hosts[..n] + [hosts[n]];
      var own := HostPeers(parse, hosts[n].ips);
      if c in own {
        var i :| 0 <= i < |own| && own[i] == c;
        assert hosts[n].ips[i] in hosts[n].ips;
      }
      forall ip | ip in hosts[n].ips && c == HostCIDR(parse, ip) ensures c in own {
        var i :| 0 <= i < |hosts[n].ips| && hosts[n].ips[i] == ip;
        assert own[i] == c;
      }
    }
  }

  lemma NoPeersIffNoAddresses(parse: Parser, hosts: seq<ResolvedHost>)
    ensures Peers(parse, hosts) == [] <==> NoAddresses(hosts)
  {
    var peers := Peers(parse, hosts);
    if peers != [] {
      PeersOfHosts(parse, hosts, peers[0]);
    }
    forall h | h in hosts && h.ips != [] ensures peers != [] {
      assert h.ips[0] in h.ips;
      PeersOfHosts(parse, hosts, HostCIDR(parse, h.ips[0]));
    }
  }

  lemma PeersMatchRecorded(parse: Parser, hosts: seq<ResolvedHost>, a: Addr)
    ensures (exists c | c in Peers(parse, hosts) :: PeerMatches(parse, c, a)) <==> Recorded(parse, hosts, a)
  {
    forall c | c in Peers(parse, hosts) && PeerMatches(parse, c, a) ensures Recorded(parse, hosts, a) {
      PeersOfHosts(parse, hosts, c);
      var h, ip :| h in hosts && ip in h.ips && c == HostCIDR(parse, ip);
      HostCIDRDenotesHost(parse, ip, a);
    }
    forall h, ip | h in hosts && ip in h.ips && parse(ip) == Some(a)
      ensures HostCIDR(parse, ip) in Peers(parse, hosts) && PeerMatches(parse, HostCIDR(parse, ip), a)
    {
      PeersOfHosts(parse, hosts, HostCIDR(parse, ip));
      HostCIDRDenotesHost(parse, ip, a);
    }
  }

  /**
   * What the generated object allows, for every status: DNS always; beyond it, the pooled ports to
   * the recorded addresses, or to anywhere when hosts are recorded without a single address.
   */
  lemma BuildDenotes(parse: Parser, fp: ResolvedPolicy, t: Traffic)
    ensures Allows(parse, Built(parse, fp).egress, t) <==>
              IsDNS(t) || (fp.hosts != [] && PortMatches(PooledPorts(fp.egress), t)
                           && (NoAddresses(fp.hosts) || Recorded(parse, fp.hosts, t.dest)))
  {
    var egress := Built(parse, fp).egress;
    assert PortMatches(DNS_RULE.ports, t) <==> IsDNS(t);
    NoPeersIffNoAddresses(parse, fp.hosts);
    PeersMatchRecorded(parse, fp.hosts, t.dest);
    if fp.hosts == [] {
      assert egress == [DNS_RULE] && DNS_RULE in egress;
    } else {
      var main := EgressRule(Peers(parse, fp.hosts), PooledPorts(fp.egress));
      assert egress == [main, DNS_RULE] && main in egress && DNS_RULE in egress;
    }
  }

  /** The ports beyond DNS that a rule with these ports opens: none, some, or every one. */
  datatype Grant = NoPorts | SomePorts(ports: set<NetPort>) | EveryPort

  const DNS_PORTS := {NetPort("UDP", 53), NetPort("TCP", 53)}

  function PortGrant(ports: seq<NetPort>): Grant {
    var beyond := (set p | p in ports) - DNS_PORTS;
    if ports == [] then EveryPort else if beyond == {} then NoPorts else SomePorts(beyond)
  }

  /** The ports a generated object opens to some destination beyond DNS. */
  ghost function GrantBeyondDNS(parse: Parser, fp: ResolvedPolicy): Grant {
    if NoAddresses(fp.hosts) then
      if fp.hosts == [] then NoPorts else PortGrant(PooledPorts(fp.egress))
    else
      if forall a :: !Recorded(parse, fp.hosts, a) then NoPorts else PortGrant(PooledPorts(fp.egress))
  }

  predicate Grants(g: Grant, t: Traffic) {
    match g
    case NoPorts => false
    case SomePorts(ports) => NetPort(t.protocol, t.port) in ports
    case EveryPort => true
  }

  lemma PortGrantMatches(ports: seq<NetPort>, t: Traffic)
    requires !IsDNS(t)
    ensures PortMatches(ports, t) <==> Grants(PortGrant(ports), t)
  {
    assert NetPort(t.protocol, t.port) !in DNS_PORTS;
  }

  lemma {:induction false} FreshPort(ports: set<NetPort>) returns (port: int)
    ensures port > 53 && forall p | p in ports :: p.port < port
  {
    if ports == {} {
      port := 54;
    } else {
      var p :| p in ports;
      port := FreshPort(ports - {p});
      if port <= p.port {
        port := p.port + 1;
      }
    }
  }

  /** A destination and grant both determine, so different grants are told apart by some packet. */
  lemma GrantsDiffer(f: Grant, g: Grant, a: Addr) returns (t: Traffic)
    requires f != g
    requires f.SomePorts? ==> f.ports !! DNS_PORTS && f.ports != {}
    requires g.SomePorts? ==> g.ports !! DNS_PORTS && g.ports != {}
    ensures t.dest == a && !IsDNS(t) && Grants(f, t) != Grants(g, t)
  {
    var p: NetPort;
    if f.EveryPort? || g.EveryPort? {
      var other := if f.EveryPort? then g else f;
      var port := FreshPort(if other.SomePorts? then other.ports else {});
      p := NetPort("TCP", port);
      assert other.SomePorts? ==> p !in other.ports;
    } else {
      var fs, gs := if f.SomePorts? then f.ports else {}, if g.SomePorts? then g.ports else {};
      assert fs != gs;
      p :| p in fs + gs && (p in fs) != (p in gs);
      assert p !in DNS_PORTS;
    }
    t := Traffic(a, p.protocol, p.port);
  }

  /** The denotation in canonical form. */
  lemma BuildDenotesGrant(parse: Parser, fp: ResolvedPolicy, t: Traffic)
    requires !IsDNS(t)
    ensures Allows(parse, Built(parse, fp).egress, t) <==>
              Grants(GrantBeyondDNS(parse, fp), t) && (NoAddresses(fp.hosts) || Recorded(parse, fp.hosts, t.dest))
  {
    BuildDenotes(parse, fp, t);
    PortGrantMatches(PooledPorts(fp.egress), t);
  }

  /**
   * The generated object confines non-DNS traffic to recorded addresses exactly when it is not the
   * case that hosts were recorded without any address and some port beyond DNS is open; in that
   * case every destination is reachable on those ports.
   */
  lemma ConfinedIffAddressed(parse: Parser, fp: ResolvedPolicy)
    ensures (forall t | Allows(parse, Built(parse, fp).egress, t) && !IsDNS(t) :: Recorded(parse, fp.hosts, t.dest))
            <==> fp.hosts == [] || !NoAddresses(fp.hosts) || PortGrant(PooledPorts(fp.egress)) == NoPorts
  {
    forall t | !IsDNS(t) { BuildDenotesGrant(parse, fp, t); }
    var g := PortGrant(PooledPorts(fp.egress));
    if fp.hosts != [] && NoAddresses(fp.hosts) && g != NoPorts {
      var t := GrantsDiffer(g, NoPorts, V4(0));
      BuildDenotesGrant(parse, fp, t);
      assert Allows(parse, Built(parse, fp).egress, t) && !IsDNS(t) && !Recorded(parse, fp.hosts, t.dest);
    }
  }

  // ---- comparing generated objects ----

  function AllPeers(egress: seq<EgressRule>): seq<string> {
    if egress == [] then [] else AllPeers(egress[..|egress| - 1]) + egress[|egress| - 1].to
  }

  method ExtractCIDRs(egress: seq<EgressRule>) returns (cidrs: seq<string>)
    ensures cidrs == Sort(AllPeers(egress))
  {
    cidrs := [];
    for i := 0 to |egress|
      invariant cidrs == AllPeers(egress[..i])
    {
      assert egress[..i + 1][..i] == egress[..i];
      for j := 0 to |egress[i].to|
        invariant cidrs == AllPeers(egress[..i]) + egress[i].to[..j]
      {
        cidrs := cidrs + [egress[i].to[j]];
      }
      assert egress[i].to[..|egress[i].to|] == egress[i].to;
    }
    assert egress[..|egress|] == egress;
    cidrs := Sort(cidrs);
  }

  /** The order-independent comparison that decides whether an update is written. */
  method IpSetsEqual(a: seq<EgressRule>, b: seq<EgressRule>) returns (equal: bool)
    ensures equal <==> SameCIDRs(a, b)
  {
    var x := ExtractCIDRs(a);
    var y := ExtractCIDRs(b);
    SortComparesMultisets(AllPeers(a), AllPeers(b));
    equal := x == y;
  }

  ghost predicate SameCIDRs(a: seq<EgressRule>, b: seq<EgressRule>) {
    multiset(AllPeers(a)) == multiset(AllPeers(b))
  }

  lemma BuiltPeers(parse: Parser, fp: ResolvedPolicy)
    ensures AllPeers(Built(parse, fp).egress) == Peers(parse, fp.hosts)
  {
    var egress := Built(parse, fp).egress;
    if fp.hosts != [] {
      assert egress[..1] == [egress[0]] && egress[..1][..0] == [];
      assert AllPeers(egress[..1]) == egress[0].to;
    }
  }

  /** The two rule lists allow the same traffic to the pods they apply to. */
  ghost predicate SameTraffic(parse: Parser, a: seq<EgressRule>, b: seq<EgressRule>) {
    forall t :: Allows(parse, a, t) <==> Allows(parse, b, t)
  }

  lemma SameCIDRsSameRecorded(parse: Parser, f: ResolvedPolicy, g: ResolvedPolicy, a: Addr)
    requires SameCIDRs(Built(parse, f).egress, Built(parse, g).egress)
    ensures Recorded(parse, f.hosts, a) <==> Recorded(parse, g.hosts, a)
    ensures NoAddresses(f.hosts) <==> NoAddresses(g.hosts)
  {
    BuiltPeers(parse, f);
    BuiltPeers(parse, g);
    PermutationElements(Peers(parse, f.hosts), Peers(parse, g.hosts));
    NoPeersIffNoAddresses(parse, f.hosts);
    NoPeersIffNoAddresses(parse, g.hosts);
    PeersMatchRecorded(parse, f.hosts, a);
    PeersMatchRecorded(parse, g.hosts, a);
  }

  /** Objects with the same CIDRs allow the same traffic exactly when both open the same ports beyond DNS. */
  lemma SameTrafficIff(parse: Parser, f: ResolvedPolicy, g: ResolvedPolicy)
    requires SameCIDRs(Built(parse, f).egress, Built(parse, g).egress)
    ensures SameTraffic(parse, Built(parse, f).egress, Built(parse, g).egress)
            <==> GrantBeyondDNS(parse, f) == GrantBeyondDNS(parse, g)
  {
    var x, y := GrantBeyondDNS(parse, f), GrantBeyondDNS(parse, g);
    SameCIDRsSameRecorded(parse, f, g, V4(0));
    if x == y {
      forall t ensures Allows(parse, Built(parse, f).egress, t) <==> Allows(parse, Built(parse, g).egress, t) {
        SameCIDRsSameRecorded(parse, f, g, t.dest);
        if IsDNS(t) {
          BuildDenotes(parse, f, t);
          BuildDenotes(parse, g, t);
        } else {
          BuildDenotesGrant(parse, f, t);
          BuildDenotesGrant(parse, g, t);
        }
      }
    } else {
      var a := ReachedAddress(parse, f, g);
      var t := GrantsDiffer(x, y, a);
      SameCIDRsSameRecorded(parse, f, g, a);
      BuildDenotesGrant(parse, f, t);
      BuildDenotesGrant(parse, g, t);
    }
  }

  /** When the grants differ, some address is a destination of both objects. */
  lemma ReachedAddress(parse: Parser, f: ResolvedPolicy, g: ResolvedPolicy) returns (a: Addr)
    requires SameCIDRs(Built(parse, f).egress, Built(parse, g).egress)
    requires GrantBeyondDNS(parse, f) != GrantBeyondDNS(parse, g)
    ensures NoAddresses(f.hosts) || Recorded(parse, f.hosts, a)
  {
    forall b { SameCIDRsSameRecorded(parse, f, g, b); }
    if exists b :: Recorded(parse, f.hosts, b) {
      a :| Recorded(parse, f.hosts, a);
    } else {
      a := V4(0);
    }
  }

  // ---- which pods an object governs ----

  type Labelling = map<string, string>

  datatype Pod = Pod(namespace: string, labels: Labelling)

  /** Label selector semantics: an absent key meets `NotIn` and `DoesNotExist` only. */
  predicate Meets(labels: Labelling, r: Requirement) {
    match r.operator
    case In => r.key in labels && labels[r.key] in r.values
    case NotIn => r.key in labels ==> labels[r.key] !in r.values
    case Exists => r.key in labels
    case DoesNotExist => r.key !in labels
  }

  predicate Selects(selector: LabelSelector, labels: Labelling) {
    && (forall k | k in selector.matchLabels :: k in labels && labels[k] == selector.matchLabels[k])
    && (forall r | r in selector.matchExpressions :: Meets(labels, r))
  }

  ghost predicate SameSelection(s: LabelSelector, t: LabelSelector) {
    forall labels :: Selects(s, labels) <==> Selects(t, labels)
  }

  ghost predicate Satisfiable(selector: LabelSelector) {
    exists labels :: Selects(selector, labels)
  }

  predicate Governs(np: NetworkPolicy, pod: Pod) {
    pod.namespace == np.namespace && Selects(np.podSelector, pod.labels)
  }

  /** What one object says about a packet of a pod: nothing, or that it is allowed, or that it does not allow it. */
  datatype Verdict = Ungoverned | Allowed | NotAllowed

  function VerdictOn(parse: Parser, np: NetworkPolicy, pod: Pod, t: Traffic): Verdict {
    if !Governs(np, pod) then Ungoverned else if Allows(parse, np.egress, t) then Allowed else NotAllowed
  }

  /** The two objects say the same about every packet of every pod. */
  ghost predicate SameEffect(parse: Parser, a: NetworkPolicy, b: NetworkPolicy) {
    forall pod, t :: VerdictOn(parse, a, pod, t) == VerdictOn(parse, b, pod, t)
  }

  lemma SameEffectIff(parse: Parser, a: NetworkPolicy, b: NetworkPolicy)
    requires a.namespace == b.namespace
    ensures SameEffect(parse, a, b) <==>
              SameSelection(a.podSelector, b.podSelector)
              && (Satisfiable(a.podSelector) ==> SameTraffic(parse, a.egress, b.egress))
  {
    hide Selects, Allows;
    var any := Traffic(V4(0), "TCP", 0);
    if SameEffect(parse, a, b) {
      forall labels ensures Selects(a.podSelector, labels) <==> Selects(b.podSelector, labels) {
        var pod := Pod(a.namespace, labels);
        assert VerdictOn(parse, a, pod, any) == VerdictOn(parse, b, pod, any);
      }
      if labels :| Selects(a.podSelector, labels) {
        forall t ensures Allows(parse, a.egress, t) <==> Allows(parse, b.egress, t) {
          assert VerdictOn(parse, a, Pod(a.namespace, labels), t) == VerdictOn(parse, b, Pod(a.namespace, labels), t);
        }
      }
    }
  }

  /**
   * Comparing CIDRs alone is a safe reason to keep the older of two generated objects exactly when
   * both select the same pods and, unless that is no pod at all, open the same ports beyond DNS.
   */
  lemma SkippedWriteHarmlessIff(parse: Parser, f: ResolvedPolicy, g: ResolvedPolicy)
    requires f.namespace == g.namespace && SameCIDRs(Built(parse, f).egress, Built(parse, g).egress)
    ensures SameEffect(parse, Built(parse, f), Built(parse, g))
            <==> SameSelection(f.podSelector, g.podSelector)
                 && (Satisfiable(f.podSelector) ==> GrantBeyondDNS(parse, f) == GrantBeyondDNS(parse, g))
  {
    SameTrafficIff(parse, f, g);
    SameEffectIff(parse, Built(parse, f), Built(parse, g));
    assert Built(parse, f).podSelector == f.podSelector && Built(parse, g).podSelector == g.podSelector;
    hide Built, SameEffect, SameTraffic, SameSelection, Satisfiable;
  }
}
