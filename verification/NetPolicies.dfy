/** Network policies as values, and what their rules allow. */
module NetPolicies {
  import opened Wrappers

  type LabelMap = map<string, string>

  datatype SpecCIDR = SpecCIDR(cidrs: seq<string>, excepts: seq<string>)
  datatype SpecICMP = SpecICMP(family: string, icmpType: int)
  datatype SpecPort = SpecPort(port: string, protocol: string)
  datatype SpecService = SpecService(serviceName: string, namespace: string)
  datatype SpecHTTP = SpecHTTP(httpMethod: string, path: string, aggregated: bool)

  datatype Ingress = Ingress(matchLabels: Option<LabelMap>, icmps: seq<SpecICMP>, toPorts: seq<SpecPort>,
                             toHTTPs: seq<SpecHTTP>, fromCIDRs: seq<SpecCIDR>, fromEntities: seq<string>)

  datatype Egress = Egress(matchLabels: Option<LabelMap>, icmps: seq<SpecICMP>, toPorts: seq<SpecPort>,
                           toHTTPs: seq<SpecHTTP>, toCIDRs: seq<SpecCIDR>, toEntities: seq<string>,
                           toServices: seq<SpecService>, toFQDNs: seq<seq<string>>)

  datatype KnoxPolicy = KnoxPolicy(kind: string, metadata: LabelMap, selector: LabelMap,
                                   egress: seq<Egress>, ingress: seq<Ingress>)

  // ================================================================ meaning

  /** Who a rule is about. A rule that names nobody is about everybody. */
  datatype Peer =
    | Endpoint(labels: LabelMap)
    | Cidr(cidr: string, excepts: seq<string>)
    | Entity(entity: string)
    | Fqdn(name: string)
    | Service(service: SpecService)
    | Anybody

  /** What traffic a rule is about. A rule that names none is about all. */
  datatype Traffic =
    | Port(port: string, protocol: string)
    | Http(port: string, protocol: string, httpMethod: string, path: string)
    | Icmp(icmp: SpecICMP)
    | AllTraffic

  ghost predicate NamesCidr(specs: seq<SpecCIDR>, p: Peer) {
    p.Cidr? && exists i :: 0 <= i < |specs| && p.cidr in specs[i].cidrs && p.excepts == specs[i].excepts
  }

  ghost predicate NamesFqdn(specs: seq<seq<string>>, p: Peer) {
    p.Fqdn? && exists i :: 0 <= i < |specs| && p.name in specs[i]
  }

  ghost predicate EgressNames(r: Egress, p: Peer) {
    || (r.matchLabels.Some? && p == Endpoint(r.matchLabels.value))
    || NamesCidr(r.toCIDRs, p)
    || (p.Entity? && p.entity in r.toEntities)
    || NamesFqdn(r.toFQDNs, p)
    || (p.Service? && p.service in r.toServices)
  }

  ghost predicate IngressNames(r: Ingress, p: Peer) {
    || (r.matchLabels.Some? && p == Endpoint(r.matchLabels.value))
    || NamesCidr(r.fromCIDRs, p)
    || (p.Entity? && p.entity in r.fromEntities)
  }

  ghost predicate EgressPeer(r: Egress, p: Peer) {
    EgressNames(r, p) || (p == Anybody && forall q :: !EgressNames(r, q))
  }

  ghost predicate IngressPeer(r: Ingress, p: Peer) {
    IngressNames(r, p) || (p == Anybody && forall q :: !IngressNames(r, q))
  }

  /** The traffic of a list of ports, HTTP requests and ICMP types. */
  ghost predicate Carries(ports: seq<SpecPort>, https: seq<SpecHTTP>, icmps: seq<SpecICMP>, t: Traffic) {
    match t
    case Port(port, protocol) => https == [] && SpecPort(port, protocol) in ports
    case Http(port, protocol, httpMethod, path) =>
      SpecPort(port, protocol) in ports && exists h :: h in https && h.httpMethod == httpMethod && h.path == path
    case Icmp(icmp) => icmp in icmps
    case AllTraffic => ports == [] && icmps == []
  }

  ghost predicate EgressAllows(r: Egress, p: Peer, t: Traffic) {
    EgressPeer(r, p) && Carries(r.toPorts, r.toHTTPs, r.icmps, t)
  }

  ghost predicate IngressAllows(r: Ingress, p: Peer, t: Traffic) {
    IngressPeer(r, p) && Carries(r.toPorts, r.toHTTPs, r.icmps, t)
  }

  datatype Direction = Out | In

  ghost predicate Allows(k: KnoxPolicy, d: Direction, p: Peer, t: Traffic) {
    match d
    case Out => exists i :: 0 <= i < |k.egress| && EgressAllows(k.egress[i], p, t)
    case In => exists i :: 0 <= i < |k.ingress| && IngressAllows(k.ingress[i], p, t)
  }
}
