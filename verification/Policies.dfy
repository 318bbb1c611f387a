/** The custom resources and the generated object: the data the controllers exchange. */
module Policies {
  import opened Strings
  import opened IPFilter
  import opened TTLQueues

  datatype PolicyPort = PolicyPort(protocol: string, port: int)

  /** One allowed destination; the source calls `pattern` "match". */
  datatype FQDNRule = FQDNRule(pattern: string, ports: seq<PolicyPort>)

  datatype Mode = Enforce | Audit

  datatype Operator = In | NotIn | Exists | DoesNotExist
  datatype Requirement = Requirement(key: string, operator: Operator, values: seq<string>)

  /** All labels and all expressions must match; the empty selector matches every pod. */
  datatype LabelSelector = LabelSelector(matchLabels: map<string, string>, matchExpressions: seq<Requirement>)

  datatype PolicySpec = PolicySpec(
    podSelector: LabelSelector,
    egress: seq<FQDNRule>,
    mode: Mode,
    resolutionTTLOverride: Option<int>,
    security: Option<SecuritySpec>)

  datatype DNSSecurity = DNSSecurity(
    dnssecValidated: bool,
    ipChurnRate: int,
    resolverDivergence: int,
    resolverResults: map<string, seq<string>>,
    shortTTL: bool)

  datatype ResolvedHost = ResolvedHost(
    hostname: string,
    ips: seq<string>,
    cnameChain: seq<string>,
    lastSeen: Time,
    ttlSeconds: int,
    security: DNSSecurity)

  /** The part of a policy object that `Build` reads. */
  datatype ResolvedPolicy = ResolvedPolicy(
    name: string,
    namespace: string,
    podSelector: LabelSelector,
    egress: seq<FQDNRule>,
    hosts: seq<ResolvedHost>)

  /** A destination port of the generated object; its protocol is always set. */
  datatype NetPort = NetPort(protocol: string, port: int)

  /** Peers are CIDR texts: the controllers generate no other kind. */
  datatype EgressRule = EgressRule(to: seq<string>, ports: seq<NetPort>)

  datatype NetworkPolicy = NetworkPolicy(
    name: string,
    namespace: string,
    labels: map<string, string>,
    podSelector: LabelSelector,
    egress: seq<EgressRule>)
}
