/** Translation of network policies to Cilium policies, and exactly when it keeps their meaning. */
module Cilium {
  import opened Wrappers
  import opened NetPolicies

  datatype CiliumHTTP = CiliumHTTP(httpMethod: string, path: string)

  /** Ports with one list of HTTP rules; without the list any request on the ports is meant. */
  datatype PortList = PortList(ports: seq<SpecPort>, http: Option<seq<CiliumHTTP>>)

  datatype CiliumEgress = CiliumEgress(toEndpoints: seq<LabelMap>, toPorts: seq<PortList>, icmps: seq<seq<SpecICMP>>,
                                       toCIDRs: seq<string>, toEntities: seq<string>, toServices: seq<SpecService>,
                                       toFQDNs: seq<string>)

  datatype CiliumIngress = CiliumIngress(fromEndpoints: seq<LabelMap>, toPorts: seq<PortList>,
                                         icmps: seq<seq<SpecICMP>>,
                                         fromCIDRs: seq<string>, fromEntities: seq<string>)

  datatype CiliumPolicy = CiliumPolicy(kind: string, metadata: LabelMap, nodeSelector: LabelMap,
                                       endpointSelector: LabelMap,
                                       egress: seq<CiliumEgress>, ingress: seq<CiliumIngress>)

  const KIND_HOST: string := "KnoxHostNetworkPolicy"
  const KIND_CILIUM: string := "CiliumNetworkPolicy"
  const KIND_CLUSTERWIDE: string := "CiliumClusterwideNetworkPolicy"

  // ================================================================ meaning of Cilium rules

  ghost predicate CiliumEgressNames(r: CiliumEgress, p: Peer) {
    match p
    case Endpoint(labels) => labels in r.toEndpoints
    case Cidr(cidr, excepts) => excepts == [] && cidr in r.toCIDRs
    case Entity(entity) => entity in r.toEntities
    case Fqdn(name) => name in r.toFQDNs
    case Service(service) => service in r.toServices
    case Anybody => false
  }

  ghost predicate CiliumIngressNames(r: CiliumIngress, p: Peer) {
    match p
    case Endpoint(labels) => labels in r.fromEndpoints
    case Cidr(cidr, excepts) => excepts == [] && cidr in r.fromCIDRs
    case Entity(entity) => entity in r.fromEntities
    case _ => false
  }

  ghost predicate CiliumEgressPeer(r: CiliumEgress, p: Peer) {
    CiliumEgressNames(r, p) || (p == Anybody && forall q :: !CiliumEgressNames(r, q))
  }

  ghost predicate CiliumIngressPeer(r: CiliumIngress, p: Peer) {
    CiliumIngressNames(r, p) || (p == Anybody && forall q :: !CiliumIngressNames(r, q))
  }

  ghost predicate CiliumCarries(toPorts: seq<PortList>, icmps: seq<seq<SpecICMP>>, t: Traffic) {
    match t
    case Port(port, protocol) =>
      exists i :: 0 <= i < |toPorts| && SpecPort(port, protocol) in toPorts[i].ports && toPorts[i].http == None
    case Http(port, protocol, httpMethod, path) =>
      exists i :: 0 <= i < |toPorts| && SpecPort(port, protocol) in toPorts[i].ports
                  && toPorts[i].http.Some? && CiliumHTTP(httpMethod, path) in toPorts[i].http.value
    case Icmp(icmp) => exists i :: 0 <= i < |icmps| && icmp in icmps[i]
    case AllTraffic => toPorts == [] && icmps == []
  }

  ghost predicate CiliumAllows(c: CiliumPolicy, d: Direction, p: Peer, t: Traffic) {
    match d
    case Out => exists i :: 0 <= i < |c.egress| && CiliumEgressAllows(c.egress[i], p, t)
    case In => exists i :: 0 <= i < |c.ingress| && CiliumIngressAllows(c.ingress[i], p, t)
  }

  ghost predicate CiliumEgressAllows(r: CiliumEgress, p: Peer, t: Traffic) {
    CiliumEgressPeer(r, p) && CiliumCarries(r.toPorts, r.icmps, t)
  }

  ghost predicate CiliumIngressAllows(r: CiliumIngress, p: Peer, t: Traffic) {
    CiliumIngressPeer(r, p) && CiliumCarries(r.toPorts, r.icmps, t)
  }

  // ================================================================ translation of traffic

  function UpperChar(c: char): char {
    if 'a' <= c <= 'z' then (c as int - 32) as char else c
  }

  /** strings.ToUpper on protocol names. */
  function ToUpper(s: string): string {
    if s == "" then "" else [UpperChar(s[0])] + ToUpper(s[1..])
  }

  /** The 26 small letters become capitals, nothing else changes. */
  lemma {:induction false} ToUpperAt(s: string, i: nat)
    requires i < |s|
    ensures |ToUpper(s)| == |s|
    ensures if 'a' <= s[i] <= 'z' then 'A' <= ToUpper(s)[i] <= 'Z' && ToUpper(s)[i] - 'A' == s[i] - 'a'
            else ToUpper(s)[i] == s[i]
  {
    if i > 0 { ToUpperAt(s[1..], i - 1); } else if |s| > 1 { ToUpperAt(s[1..], 0); }
  }

  lemma {:induction false} UpperTwice(s: string)
    ensures ToUpper(ToUpper(s)) == ToUpper(s)
  {
    if s != "" {
      UpperTwice(s[1..]);
      var u := ToUpper(s);
      assert u[0] == UpperChar(s[0]) && u[1..] == ToUpper(s[1..]);
    }
  }

  function UpperPort(p: SpecPort): SpecPort {
    SpecPort(p.port, ToUpper(p.protocol))
  }

  /** The ports with upper-case protocols; for egress those without a number are left out. */
  function UpperPorts(ports: seq<SpecPort>, skipEmpty: bool): seq<SpecPort> {
    if ports == [] then []
    else
      var p := ports[|ports| - 1];
      UpperPorts(ports[..|ports| - 1], skipEmpty) + if skipEmpty && p.port == "" then [] else [UpperPort(p)]
  }

  lemma {:induction false} UpperPortsMembers(ports: seq<SpecPort>, skipEmpty: bool, q: SpecPort)
    ensures q in UpperPorts(ports, skipEmpty) <==>
      exists p :: p in ports && !(skipEmpty && p.port == "") && UpperPort(p) == q
  {
    if ports != [] {
      var init, last := ports[..|ports| - 1], ports[|ports| - 1];
      UpperPortsMembers(init, skipEmpty, q);
      assert ports == init + [last];
      if p :| p in init && !(skipEmpty && p.port == "") && UpperPort(p) == q { assert p in ports; }
    }
  }

  function HttpRules(https: seq<SpecHTTP>): seq<CiliumHTTP> {
    if https == [] then []
    else HttpRules(https[..|https| - 1]) + [CiliumHTTP(https[|https| - 1].httpMethod, https[|https| - 1].path)]
  }

  lemma {:induction false} HttpRulesMembers(https: seq<SpecHTTP>, c: CiliumHTTP)
    ensures c in HttpRules(https) <==> exists h :: h in https && h.httpMethod == c.httpMethod && h.path == c.path
  {
    if https != [] {
      var init, last := https[..|https| - 1], https[|https| - 1];
      HttpRulesMembers(init, c);
      assert https == init + [last];
      if h :| h in init && h.httpMethod == c.httpMethod && h.path == c.path { assert h in https; }
    }
  }

  function PortListsOf(ports: seq<SpecPort>, https: seq<SpecHTTP>): seq<PortList> {
    if ports == [] then [] else [PortList(ports, if https == [] then None else Some(HttpRules(https)))]
  }

  function IcmpsOf(icmps: seq<SpecICMP>): seq<seq<SpecICMP>> {
    if icmps == [] then [] else [icmps]
  }

  /** The loop over the ports: one port list for all, with the HTTP rules. */
  method BuildPorts(ports: seq<SpecPort>, https: seq<SpecHTTP>, skipEmpty: bool) returns (toPorts: seq<PortList>)
    ensures toPorts == PortListsOf(UpperPorts(ports, skipEmpty), https)
  {
    toPorts := [];
    for i := 0 to |ports|
      invariant toPorts == PortListsOf(UpperPorts(ports[..i], skipEmpty), https)
    {
      assert ports[..i + 1][..i] == ports[..i];
      var toPort := ports[i];
      if skipEmpty && toPort.port == "" {
        assert UpperPorts(ports[..i + 1], skipEmpty) == UpperPorts(ports[..i], skipEmpty);
        continue;
      }
      if toPorts == [] {
        toPorts := [PortList([], None)];
      }
      if |https| > 0 {
        var httpRules := BuildHttpRules(https);
        toPorts := [toPorts[0].(http := Some(httpRules))];
      }
      var port := SpecPort(toPort.port, ToUpper(toPort.protocol));
      ghost var up := UpperPorts(ports[..i], skipEmpty);
      assert port == UpperPort(toPort);
      assert UpperPorts(ports[..i + 1], skipEmpty) == up + [port];
      assert toPorts[0] == PortList(up, if https == [] then None else Some(HttpRules(https)));
      toPorts := [toPorts[0].(ports := toPorts[0].ports + [port])];
    }
    assert ports[..|ports|] == ports;
  }

  method BuildHttpRules(https: seq<SpecHTTP>) returns (httpRules: seq<CiliumHTTP>)
    ensures httpRules == HttpRules(https)
  {
    httpRules := [];
    for i := 0 to |https|
      invariant httpRules == HttpRules(https[..i])
    {
      assert https[..i + 1][..i] == https[..i];
      httpRules := httpRules + [CiliumHTTP(https[i].httpMethod, https[i].path)];
    }
    assert https[..|https|] == https;
  }

  method BuildIcmps(icmps: seq<SpecICMP>) returns (r: seq<seq<SpecICMP>>)
    ensures r == IcmpsOf(icmps)
  {
    r := [];
    for i := 0 to |icmps|
      invariant r == IcmpsOf(icmps[..i])
    {
      assert icmps[..i + 1] == icmps[..i] + [icmps[i]];
      if r == [] {
        r := [[]];
      }
      r := [r[0] + [SpecICMP(icmps[i].family, icmps[i].icmpType)]];
    }
    assert icmps[..|icmps|] == icmps;
  }

  /** Ports the translation keeps as they are: upper-case protocol and, for egress, a number. */
  predicate PortsKept(ports: seq<SpecPort>, skipEmpty: bool) {
    forall p :: p in ports ==> ToUpper(p.protocol) == p.protocol && !(skipEmpty && p.port == "")
  }

  ghost predicate SameTraffic(ports: seq<SpecPort>, https: seq<SpecHTTP>, icmps: seq<SpecICMP>, skipEmpty: bool) {
    forall t :: Carries(ports, https, icmps, t) <==>
                CiliumCarries(PortListsOf(UpperPorts(ports, skipEmpty), https), IcmpsOf(icmps), t)
  }

  lemma PortListCarries(ports: seq<SpecPort>, https: seq<SpecHTTP>, icmps: seq<SpecICMP>, t: Traffic)
    ensures CiliumCarries(PortListsOf(ports, https), IcmpsOf(icmps), t) <==>
      match t
      case Port(port, protocol) => https == [] && SpecPort(port, protocol) in ports
      case Http(port, protocol, httpMethod, path) =>
        SpecPort(port, protocol) in ports && exists h :: h in https && h.httpMethod == httpMethod && h.path == path
      case Icmp(icmp) => icmp in icmps
      case AllTraffic => ports == [] && icmps == []
  {
    if t.Http? { HttpRulesMembers(https, CiliumHTTP(t.httpMethod, t.path)); }
    var lists, fields := PortListsOf(ports, https), IcmpsOf(icmps);
    if ports != [] { assert lists[0].ports == ports; }
    if icmps != [] { assert fields[0] == icmps; }
  }

  lemma KeptPorts(ports: seq<SpecPort>, skipEmpty: bool)
    requires PortsKept(ports, skipEmpty)
    ensures forall q :: q in UpperPorts(ports, skipEmpty) <==> q in ports
    ensures UpperPorts(ports, skipEmpty) == [] <==> ports == []
  {
    forall q ensures q in UpperPorts(ports, skipEmpty) <==> q in ports {
      UpperPortsMembers(ports, skipEmpty, q);
      if q in ports { assert UpperPort(q) == q; }
    }
    if ports != [] { assert ports[0] in UpperPorts(ports, skipEmpty); }
    if UpperPorts(ports, skipEmpty) != [] { assert UpperPorts(ports, skipEmpty)[0] in ports; }
  }

  /** The traffic of a rule is translated exactly when all its ports are kept as they are. */
  lemma TrafficKeptExactly(ports: seq<SpecPort>, https: seq<SpecHTTP>, icmps: seq<SpecICMP>, skipEmpty: bool)
    ensures SameTraffic(ports, https, icmps, skipEmpty) <==> PortsKept(ports, skipEmpty)
  {
    var up := UpperPorts(ports, skipEmpty);
    forall t { PortListCarries(up, https, icmps, t); }
    if PortsKept(ports, skipEmpty) {
      KeptPorts(ports, skipEmpty);
    } else {
      var p :| p in ports && !(ToUpper(p.protocol) == p.protocol && !(skipEmpty && p.port == ""));
      UpperPortsMembers(ports, skipEmpty, p);
      forall q | q in ports ensures UpperPort(q) == p ==> ToUpper(p.protocol) == p.protocol && p.port == q.port {
        UpperTwice(q.protocol);
      }
      assert p !in up;
      var t := if https == [] then Port(p.port, p.protocol)
               else Http(p.port, p.protocol, https[0].httpMethod, https[0].path);
      assert https != [] ==> https[0] in https;
      assert Carries(ports, https, icmps, t);
      assert !CiliumCarries(PortListsOf(up, https), IcmpsOf(icmps), t);
    }
  }

  // ================================================================ translation of peers

  function LastCidrs(specs: seq<SpecCIDR>): seq<string> {
    if specs == [] then [] else specs[|specs| - 1].cidrs
  }

  function AllCidrs(specs: seq<SpecCIDR>): seq<string> {
    if specs == [] then [] else AllCidrs(specs[..|specs| - 1]) + specs[|specs| - 1].cidrs
  }

  function AllNames(fqdns: seq<seq<string>>): seq<string> {
    if fqdns == [] then [] else AllNames(fqdns[..|fqdns| - 1]) + fqdns[|fqdns| - 1]
  }

  /** What the translation of an egress rule is: the first kind of peer present, of several CIDR specs
      the last, and the ports that have a number. */
  function EgressOf(r: Egress): CiliumEgress {
    var none := CiliumEgress([], PortListsOf(UpperPorts(r.toPorts, true), r.toHTTPs), IcmpsOf(r.icmps), [], [], [], []);
    if r.matchLabels.Some? then none.(toEndpoints := [r.matchLabels.value])
    else if r.toCIDRs != [] then none.(toCIDRs := LastCidrs(r.toCIDRs))
    else if r.toEntities != [] then none.(toEntities := r.toEntities)
    else if r.toFQDNs != [] then none.(toFQDNs := AllNames(r.toFQDNs))
    else none.(toServices := r.toServices)
  }

  /** What the translation of an ingress rule is: every peer, without the exceptions of CIDR specs. */
  function IngressOf(r: Ingress): CiliumIngress {
    CiliumIngress(if r.matchLabels.Some? then [r.matchLabels.value] else [],
                  PortListsOf(UpperPorts(r.toPorts, false), r.toHTTPs), IcmpsOf(r.icmps),
                  AllCidrs(r.fromCIDRs), r.fromEntities)
  }

  lemma {:induction false} AllCidrsMembers(specs: seq<SpecCIDR>, c: string)
    ensures c in AllCidrs(specs) <==> exists i :: 0 <= i < |specs| && c in specs[i].cidrs
  {
    if specs != [] {
      var last := |specs| - 1;
      AllCidrsMembers(specs[..last], c);
      if i :| 0 <= i < last && c in specs[..last][i].cidrs { assert c in specs[i].cidrs; }
      if i :| 0 <= i < |specs| && c in specs[i].cidrs {
        if i < last { assert c in specs[..last][i].cidrs; }
      }
    }
  }

  lemma {:induction false} AllNamesMembers(fqdns: seq<seq<string>>, n: string)
    ensures n in AllNames(fqdns) <==> exists i :: 0 <= i < |fqdns| && n in fqdns[i]
  {
    if fqdns != [] {
      var last := |fqdns| - 1;
      AllNamesMembers(fqdns[..last], n);
      if i :| 0 <= i < last && n in fqdns[..last][i] { assert n in fqdns[i]; }
      if i :| 0 <= i < |fqdns| && n in fqdns[i] {
        if i < last { assert n in fqdns[..last][i]; }
      }
    }
  }

  /** CIDR specs a translation into one flat list keeps: no exceptions, and if only the last spec is
      taken, every address range of the others is in it. */
  ghost predicate CidrsKept(specs: seq<SpecCIDR>, kept: seq<string>) {
    forall i :: 0 <= i < |specs| ==> SpecKept(specs[i], kept)
  }

  ghost predicate SpecKept(spec: SpecCIDR, kept: seq<string>) {
    forall c :: c in spec.cidrs ==> spec.excepts == [] && c in kept
  }

  ghost predicate NoCidrs(specs: seq<SpecCIDR>) {
    forall i :: 0 <= i < |specs| ==> specs[i].cidrs == []
  }

  ghost predicate NoNames(fqdns: seq<seq<string>>) {
    forall i :: 0 <= i < |fqdns| ==> fqdns[i] == []
  }

  /** The egress rule names one kind of peer: nothing after the first kind present. */
  ghost predicate OnePeerKind(r: Egress) {
    if r.matchLabels.Some? then NoCidrs(r.toCIDRs) && r.toEntities == [] && NoNames(r.toFQDNs) && r.toServices == []
    else if r.toCIDRs != [] then
      CidrsKept(r.toCIDRs, LastCidrs(r.toCIDRs)) && r.toEntities == [] && NoNames(r.toFQDNs) && r.toServices == []
    else if r.toEntities != [] then NoNames(r.toFQDNs) && r.toServices == []
    else if r.toFQDNs != [] then r.toServices == []
    else true
  }

  ghost predicate SameCidrs(specs: seq<SpecCIDR>, kept: seq<string>) {
    forall c, e :: NamesCidr(specs, Cidr(c, e)) <==> e == [] && c in kept
  }

  ghost predicate SameElements<T(!new)>(a: seq<T>, b: seq<T>) {
    forall x :: x in a <==> x in b
  }

  ghost predicate SameNames(fqdns: seq<seq<string>>, kept: seq<string>) {
    forall n :: NamesFqdn(fqdns, Fqdn(n)) <==> n in kept
  }

  lemma CidrsKeptExactly(specs: seq<SpecCIDR>, kept: seq<string>)
    requires forall c :: c in kept ==> exists i :: 0 <= i < |specs| && c in specs[i].cidrs
    ensures SameCidrs(specs, kept) <==> CidrsKept(specs, kept)
  {
    if CidrsKept(specs, kept) {
      forall c, e ensures NamesCidr(specs, Cidr(c, e)) <==> e == [] && c in kept {
        if NamesCidr(specs, Cidr(c, e)) {
          var i :| 0 <= i < |specs| && c in specs[i].cidrs && e == specs[i].excepts;
          assert SpecKept(specs[i], kept);
        }
        if e == [] && c in kept {
          var i :| 0 <= i < |specs| && c in specs[i].cidrs;
          assert SpecKept(specs[i], kept);
          assert e == specs[i].excepts;
        }
      }
    } else {
      var i :| 0 <= i < |specs| && !SpecKept(specs[i], kept);
      var c :| c in specs[i].cidrs && !(specs[i].excepts == [] && c in kept);
      assert NamesCidr(specs, Cidr(c, specs[i].excepts));
    }
  }

  lemma NoCidrsExactly(specs: seq<SpecCIDR>)
    ensures SameCidrs(specs, []) <==> NoCidrs(specs)
  {
    CidrsKeptExactly(specs, []);
    if !NoCidrs(specs) {
      var i :| 0 <= i < |specs| && specs[i].cidrs != [];
      assert specs[i].cidrs[0] in specs[i].cidrs;
      assert !SpecKept(specs[i], []);
    }
  }

  lemma NoNamesExactly(fqdns: seq<seq<string>>)
    ensures SameNames(fqdns, []) <==> NoNames(fqdns)
    ensures SameNames(fqdns, AllNames(fqdns))
  {
    forall n { AllNamesMembers(fqdns, n); }
    if !NoNames(fqdns) {
      var i :| 0 <= i < |fqdns| && fqdns[i] != [];
      assert fqdns[i][0] in fqdns[i];
      assert NamesFqdn(fqdns, Fqdn(fqdns[i][0]));
    }
  }

  lemma NoElements<T(!new)>(a: seq<T>)
    ensures SameElements(a, []) <==> a == []
  {
    if a != [] { assert a[0] in a; }
  }

  ghost predicate SameEgressNames(r: Egress, t: CiliumEgress) {
    forall p :: EgressNames(r, p) <==> CiliumEgressNames(t, p)
  }

  lemma KindByKind(r: Egress, t: CiliumEgress)
    requires t.toEndpoints == if r.matchLabels.Some? then [r.matchLabels.value] else []
    ensures SameEgressNames(r, t) <==>
      && SameCidrs(r.toCIDRs, t.toCIDRs) && SameElements(r.toEntities, t.toEntities)
      && SameNames(r.toFQDNs, t.toFQDNs) && SameElements(r.toServices, t.toServices)
  {
    if SameEgressNames(r, t) {
      forall c, e ensures NamesCidr(r.toCIDRs, Cidr(c, e)) <==> e == [] && c in t.toCIDRs {
        assert EgressNames(r, Cidr(c, e)) <==> CiliumEgressNames(t, Cidr(c, e));
      }
      forall x ensures x in r.toEntities <==> x in t.toEntities {
        assert EgressNames(r, Entity(x)) <==> CiliumEgressNames(t, Entity(x));
      }
      forall n ensures NamesFqdn(r.toFQDNs, Fqdn(n)) <==> n in t.toFQDNs {
        assert EgressNames(r, Fqdn(n)) <==> CiliumEgressNames(t, Fqdn(n));
      }
      forall x ensures x in r.toServices <==> x in t.toServices {
        assert EgressNames(r, Service(x)) <==> CiliumEgressNames(t, Service(x));
      }
    }
  }

  /** The peers an egress rule names are kept exactly when it names one kind. */
  lemma NamesKeptExactly(r: Egress)
    ensures SameEgressNames(r, EgressOf(r)) <==> OnePeerKind(r)
  {
    var t := EgressOf(r);
    KindByKind(r, t);
    NoCidrsExactly(r.toCIDRs);
    NoNamesExactly(r.toFQDNs);
    NoElements(r.toEntities);
    NoElements(r.toServices);
    assert SameElements(r.toEntities, r.toEntities) && SameElements(r.toServices, r.toServices);
    if r.toCIDRs != [] {
      LastIsListed(r.toCIDRs);
      CidrsKeptExactly(r.toCIDRs, LastCidrs(r.toCIDRs));
    }
    assert (r.toCIDRs == [] ==> NoCidrs(r.toCIDRs)) && (r.toFQDNs == [] ==> NoNames(r.toFQDNs));
    hide NoCidrs, NoNames, CidrsKept, SameCidrs, SameElements, SameNames, SameEgressNames;
  }

  lemma LastIsListed(specs: seq<SpecCIDR>)
    requires specs != []
    ensures forall c :: c in LastCidrs(specs) ==> exists i :: 0 <= i < |specs| && c in specs[i].cidrs
  {
    forall c | c in LastCidrs(specs) ensures exists i :: 0 <= i < |specs| && c in specs[i].cidrs {
      assert c in specs[|specs| - 1].cidrs;
    }
  }

  // ================================================================ meaning preserved

  lemma SomeTraffic(ports: seq<SpecPort>, https: seq<SpecHTTP>, icmps: seq<SpecICMP>) returns (t: Traffic)
    ensures Carries(ports, https, icmps, t)
  {
    if ports != [] {
      t := if https == [] then Port(ports[0].port, ports[0].protocol)
           else Http(ports[0].port, ports[0].protocol, https[0].httpMethod, https[0].path);
      assert https != [] ==> https[0] in https;
      assert SpecPort(ports[0].port, ports[0].protocol) == ports[0];
    } else if icmps != [] {
      t := Icmp(icmps[0]);
    } else {
      t := AllTraffic;
    }
  }

  lemma SomeCiliumTraffic(ports: seq<SpecPort>, https: seq<SpecHTTP>, icmps: seq<SpecICMP>) returns (t: Traffic)
    ensures CiliumCarries(PortListsOf(ports, https), IcmpsOf(icmps), t)
  {
    t := SomeTraffic(ports, https, icmps);
    PortListCarries(ports, https, icmps, t);
  }

  lemma SomePeer(r: Egress) returns (p: Peer)
    ensures EgressPeer(r, p)
  {
    if q :| EgressNames(r, q) { p := q; } else { p := Anybody; }
  }

  lemma SomeCiliumPeer(r: CiliumEgress) returns (p: Peer)
    ensures CiliumEgressPeer(r, p)
  {
    if q :| CiliumEgressNames(r, q) { p := q; } else { p := Anybody; }
  }

  ghost predicate SameEgress(r: Egress, t: CiliumEgress) {
    forall p, x :: EgressAllows(r, p, x) <==> CiliumEgressAllows(t, p, x)
  }

  ghost predicate SameEgressPeers(r: Egress, t: CiliumEgress) {
    forall p :: EgressPeer(r, p) <==> CiliumEgressPeer(t, p)
  }

  lemma PeersAreNames(r: Egress, t: CiliumEgress)
    ensures SameEgressPeers(r, t) <==> SameEgressNames(r, t)
  {
    assert !EgressNames(r, Anybody) && !CiliumEgressNames(t, Anybody);
    if SameEgressPeers(r, t) {
      forall p ensures EgressNames(r, p) <==> CiliumEgressNames(t, p) {
        if p != Anybody { assert EgressPeer(r, p) <==> CiliumEgressPeer(t, p); }
      }
    }
  }

  lemma PeerAndTraffic(r: Egress)
    ensures SameEgress(r, EgressOf(r)) <==>
      SameEgressPeers(r, EgressOf(r)) && SameTraffic(r.toPorts, r.toHTTPs, r.icmps, true)
  {
    var t := EgressOf(r);
    assert t.toPorts == PortListsOf(UpperPorts(r.toPorts, true), r.toHTTPs) && t.icmps == IcmpsOf(r.icmps);
    var p0 := SomePeer(r);
    var q0 := SomeCiliumPeer(t);
    var x0 := SomeTraffic(r.toPorts, r.toHTTPs, r.icmps);
    var y0 := SomeCiliumTraffic(UpperPorts(r.toPorts, true), r.toHTTPs, r.icmps);
    hide EgressPeer, CiliumEgressPeer, Carries, CiliumCarries, EgressOf, PortListsOf, UpperPorts, IcmpsOf;
    if SameEgress(r, t) {
      forall p ensures EgressPeer(r, p) <==> CiliumEgressPeer(t, p) {
        assert EgressAllows(r, p, x0) <==> CiliumEgressAllows(t, p, x0);
        assert EgressAllows(r, p, y0) <==> CiliumEgressAllows(t, p, y0);
      }
      forall x ensures Carries(r.toPorts, r.toHTTPs, r.icmps, x) <==> CiliumCarries(t.toPorts, t.icmps, x) {
        assert EgressAllows(r, p0, x) <==> CiliumEgressAllows(t, p0, x);
        assert EgressAllows(r, q0, x) <==> CiliumEgressAllows(t, q0, x);
      }
    }
  }

  /** Exactly when the translation of an egress rule allows the same: it names one kind of peer (of
      several CIDR specs the last has all, and none has exceptions), and every port has a number and an
      upper-case protocol. */
  lemma EgressPreservedExactly(r: Egress)
    ensures SameEgress(r, EgressOf(r)) <==> OnePeerKind(r) && PortsKept(r.toPorts, true)
  {
    PeerAndTraffic(r);
    PeersAreNames(r, EgressOf(r));
    NamesKeptExactly(r);
    TrafficKeptExactly(r.toPorts, r.toHTTPs, r.icmps, true);
  }

  // ---------------------------------------------------------------- what is lost, by example

  const HTTPS_PORT := SpecPort("443", "TCP")
  const HTTPS := Port("443", "TCP")
  const ANY_EGRESS := Egress(None, [], [HTTPS_PORT], [], [], [], [], [])

  lemma HttpsIsTranslated(r: Egress)
    requires r.toPorts == [HTTPS_PORT] && r.toHTTPs == [] && r.icmps == []
    ensures Carries(r.toPorts, r.toHTTPs, r.icmps, HTTPS)
      && CiliumCarries(EgressOf(r).toPorts, EgressOf(r).icmps, HTTPS)
  {
    assert ToUpper("TCP") == "TCP" by { assert "TCP"[1..] == "CP" && "CP"[1..] == "P" && "P"[1..] == ""; }
    TrafficKeptExactly(r.toPorts, r.toHTTPs, r.icmps, true);
    assert Carries(r.toPorts, r.toHTTPs, r.icmps, HTTPS);
  }

  /** Of two CIDR specs only the second is translated. */
  lemma EarlierCidrIsDropped()
    ensures var specs := [SpecCIDR(["10.0.0.0/8"], []), SpecCIDR(["192.168.0.0/16"], [])];
      var r, p := ANY_EGRESS.(toCIDRs := specs), Cidr("10.0.0.0/8", []);
      EgressAllows(r, p, HTTPS) && !CiliumEgressAllows(EgressOf(r), p, HTTPS)
  {
    var specs := [SpecCIDR(["10.0.0.0/8"], []), SpecCIDR(["192.168.0.0/16"], [])];
    var r, p := ANY_EGRESS.(toCIDRs := specs), Cidr("10.0.0.0/8", []);
    HttpsIsTranslated(r);
    assert NamesCidr(specs, p) by { assert p.cidr in specs[0].cidrs; }
    assert EgressOf(r).toCIDRs == ["192.168.0.0/16"];
    assert |"10.0.0.0/8"| != |"192.168.0.0/16"|;
  }

  /** A CIDR spec with an exception becomes one without. */
  lemma ExceptionIsDropped()
    ensures var r := ANY_EGRESS.(toCIDRs := [SpecCIDR(["10.0.0.0/8"], ["10.1.0.0/16"])]);
      var all, part := Cidr("10.0.0.0/8", []), Cidr("10.0.0.0/8", ["10.1.0.0/16"]);
      && EgressAllows(r, part, HTTPS) && !EgressAllows(r, all, HTTPS)
      && CiliumEgressAllows(EgressOf(r), all, HTTPS) && !CiliumEgressAllows(EgressOf(r), part, HTTPS)
  {
    var specs := [SpecCIDR(["10.0.0.0/8"], ["10.1.0.0/16"])];
    var r := ANY_EGRESS.(toCIDRs := specs);
    HttpsIsTranslated(r);
    assert NamesCidr(specs, Cidr("10.0.0.0/8", ["10.1.0.0/16"])) by { assert "10.0.0.0/8" in specs[0].cidrs; }
  }

  /** Of a labelled endpoint and an entity in one rule only the endpoint is translated. */
  lemma SecondPeerKindIsDropped(labels: LabelMap)
    ensures var r := ANY_EGRESS.(matchLabels := Some(labels), toEntities := ["world"]);
      EgressAllows(r, Entity("world"), HTTPS) && !CiliumEgressAllows(EgressOf(r), Entity("world"), HTTPS)
  {
    HttpsIsTranslated(ANY_EGRESS.(matchLabels := Some(labels), toEntities := ["world"]));
  }

  /** An egress rule whose only port has no number is translated to one for all traffic. */
  lemma PortWithoutNumberIsDropped()
    ensures var r := ANY_EGRESS.(toEntities := ["world"], toPorts := [SpecPort("", "TCP")]);
      && EgressAllows(r, Entity("world"), Port("", "TCP")) && !EgressAllows(r, Entity("world"), AllTraffic)
      && CiliumEgressAllows(EgressOf(r), Entity("world"), AllTraffic)
  {
    assert [SpecPort("", "TCP")][..0] == [];
  }

  ghost predicate SameIngress(r: Ingress, t: CiliumIngress) {
    forall p, x :: IngressAllows(r, p, x) <==> CiliumIngressAllows(t, p, x)
  }

  ghost predicate SameIngressNames(r: Ingress, t: CiliumIngress) {
    forall p :: IngressNames(r, p) <==> CiliumIngressNames(t, p)
  }

  /** The CIDR specs have no exceptions. */
  ghost predicate NoExceptions(r: Ingress) {
    CidrsKept(r.fromCIDRs, AllCidrs(r.fromCIDRs))
  }

  lemma IngressNamesKept(r: Ingress)
    ensures SameIngressNames(r, IngressOf(r)) <==> NoExceptions(r)
  {
    var t := IngressOf(r);
    forall c { AllCidrsMembers(r.fromCIDRs, c); }
    CidrsKeptExactly(r.fromCIDRs, AllCidrs(r.fromCIDRs));
    hide CidrsKept, AllCidrs;
    if SameIngressNames(r, t) {
      forall c, e ensures NamesCidr(r.fromCIDRs, Cidr(c, e)) <==> e == [] && c in t.fromCIDRs {
        assert IngressNames(r, Cidr(c, e)) <==> CiliumIngressNames(t, Cidr(c, e));
      }
    }
  }

  lemma SomeIngressPeer(r: Ingress) returns (p: Peer)
    ensures IngressPeer(r, p)
  {
    if q :| IngressNames(r, q) { p := q; } else { p := Anybody; }
  }

  lemma SomeCiliumIngressPeer(r: CiliumIngress) returns (p: Peer)
    ensures CiliumIngressPeer(r, p)
  {
    if q :| CiliumIngressNames(r, q) { p := q; } else { p := Anybody; }
  }

  lemma IngressPeersAreNames(r: Ingress, t: CiliumIngress)
    ensures (forall p :: IngressPeer(r, p) <==> CiliumIngressPeer(t, p)) <==> SameIngressNames(r, t)
  {
    assert !IngressNames(r, Anybody) && !CiliumIngressNames(t, Anybody);
    if forall p :: IngressPeer(r, p) <==> CiliumIngressPeer(t, p) {
      forall p ensures IngressNames(r, p) <==> CiliumIngressNames(t, p) {
        if p != Anybody { assert IngressPeer(r, p) <==> CiliumIngressPeer(t, p); }
      }
    }
  }

  lemma IngressPeerAndTraffic(r: Ingress)
    ensures SameIngress(r, IngressOf(r)) <==>
      (forall p :: IngressPeer(r, p) <==> CiliumIngressPeer(IngressOf(r), p))
      && SameTraffic(r.toPorts, r.toHTTPs, r.icmps, false)
  {
    var t := IngressOf(r);
    assert t.toPorts == PortListsOf(UpperPorts(r.toPorts, false), r.toHTTPs) && t.icmps == IcmpsOf(r.icmps);
    var p0 := SomeIngressPeer(r);
    var q0 := SomeCiliumIngressPeer(t);
    var x0 := SomeTraffic(r.toPorts, r.toHTTPs, r.icmps);
    var y0 := SomeCiliumTraffic(UpperPorts(r.toPorts, false), r.toHTTPs, r.icmps);
    hide IngressPeer, CiliumIngressPeer, Carries, CiliumCarries, IngressOf, PortListsOf, UpperPorts, IcmpsOf;
    if SameIngress(r, t) {
      forall p ensures IngressPeer(r, p) <==> CiliumIngressPeer(t, p) {
        assert IngressAllows(r, p, x0) <==> CiliumIngressAllows(t, p, x0);
        assert IngressAllows(r, p, y0) <==> CiliumIngressAllows(t, p, y0);
      }
      forall x ensures Carries(r.toPorts, r.toHTTPs, r.icmps, x) <==> CiliumCarries(t.toPorts, t.icmps, x) {
        assert IngressAllows(r, p0, x) <==> CiliumIngressAllows(t, p0, x);
        assert IngressAllows(r, q0, x) <==> CiliumIngressAllows(t, q0, x);
      }
    }
  }

  /** Exactly when the translation of an ingress rule allows the same: no CIDR spec has exceptions and
      every protocol is upper-case. */
  lemma IngressPreservedExactly(r: Ingress)
    ensures SameIngress(r, IngressOf(r)) <==> NoExceptions(r) && PortsKept(r.toPorts, false)
  {
    IngressPeerAndTraffic(r);
    IngressPeersAreNames(r, IngressOf(r));
    IngressNamesKept(r);
    TrafficKeptExactly(r.toPorts, r.toHTTPs, r.icmps, false);
  }

  // ================================================================ whole policies

  function EgressesOf(rules: seq<Egress>): seq<CiliumEgress> {
    if rules == [] then [] else EgressesOf(rules[..|rules| - 1]) + [EgressOf(rules[|rules| - 1])]
  }

  function IngressesOf(rules: seq<Ingress>): seq<CiliumIngress> {
    if rules == [] then [] else IngressesOf(rules[..|rules| - 1]) + [IngressOf(rules[|rules| - 1])]
  }

  lemma {:induction false} EgressesAt(rules: seq<Egress>)
    ensures |EgressesOf(rules)| == |rules|
    ensures forall i :: 0 <= i < |rules| ==> EgressesOf(rules)[i] == EgressOf(rules[i])
  {
    if rules != [] { EgressesAt(rules[..|rules| - 1]); }
  }

  lemma {:induction false} IngressesAt(rules: seq<Ingress>)
    ensures |IngressesOf(rules)| == |rules|
    ensures forall i :: 0 <= i < |rules| ==> IngressesOf(rules)[i] == IngressOf(rules[i])
  {
    if rules != [] { IngressesAt(rules[..|rules| - 1]); }
  }

  /** Host policies select nodes, others endpoints; name and namespace are kept. */
  ghost predicate IsTranslation(k: KnoxPolicy, c: CiliumPolicy) {
    && (if k.kind == "KnoxHostNetworkPolicy" then
          c.kind == "CiliumClusterwideNetworkPolicy" && c.nodeSelector == k.selector && c.endpointSelector == map[]
        else c.kind == "CiliumNetworkPolicy" && c.endpointSelector == k.selector && c.nodeSelector == map[])
    && (forall x :: x in c.metadata <==> x in k.metadata && x in {"name", "namespace"})
    && (forall x :: x in c.metadata ==> c.metadata[x] == k.metadata[x])
    && c.egress == EgressesOf(k.egress) && c.ingress == IngressesOf(k.ingress)
  }

  ghost predicate AllKept(k: KnoxPolicy) {
    && (forall i :: 0 <= i < |k.egress| ==> OnePeerKind(k.egress[i]) && PortsKept(k.egress[i].toPorts, true))
    && (forall i :: 0 <= i < |k.ingress| ==> NoExceptions(k.ingress[i]) && PortsKept(k.ingress[i].toPorts, false))
  }

  lemma OutIsPreserved(rules: seq<Egress>, p: Peer, x: Traffic)
    requires forall i :: 0 <= i < |rules| ==> OnePeerKind(rules[i]) && PortsKept(rules[i].toPorts, true)
    ensures (exists i :: 0 <= i < |rules| && EgressAllows(rules[i], p, x)) <==>
            exists i :: 0 <= i < |rules| && CiliumEgressAllows(EgressOf(rules[i]), p, x)
  {
    hide *;
    forall i | 0 <= i < |rules| ensures EgressAllows(rules[i], p, x) <==> CiliumEgressAllows(EgressOf(rules[i]), p, x) {
      EgressPreservedExactly(rules[i]);
      SameEgressAt(rules[i], EgressOf(rules[i]), p, x);
    }
  }

  lemma SameEgressAt(r: Egress, t: CiliumEgress, p: Peer, x: Traffic)
    requires SameEgress(r, t)
    ensures EgressAllows(r, p, x) <==> CiliumEgressAllows(t, p, x)
  {
  }

  lemma InIsPreserved(rules: seq<Ingress>, p: Peer, x: Traffic)
    requires forall i :: 0 <= i < |rules| ==> NoExceptions(rules[i]) && PortsKept(rules[i].toPorts, false)
    ensures (exists i :: 0 <= i < |rules| && IngressAllows(rules[i], p, x)) <==>
            exists i :: 0 <= i < |rules| && CiliumIngressAllows(IngressOf(rules[i]), p, x)
  {
    hide *;
    forall i | 0 <= i < |rules|
      ensures IngressAllows(rules[i], p, x) <==> CiliumIngressAllows(IngressOf(rules[i]), p, x)
    {
      IngressPreservedExactly(rules[i]);
      SameIngressAt(rules[i], IngressOf(rules[i]), p, x);
    }
  }

  lemma SameIngressAt(r: Ingress, t: CiliumIngress, p: Peer, x: Traffic)
    requires SameIngress(r, t)
    ensures IngressAllows(r, p, x) <==> CiliumIngressAllows(t, p, x)
  {
  }

  lemma CiliumSide(k: KnoxPolicy, c: CiliumPolicy, d: Direction, p: Peer, x: Traffic)
    requires IsTranslation(k, c)
    ensures CiliumAllows(c, d, p, x) <==>
      match d
      case Out => exists i :: 0 <= i < |k.egress| && CiliumEgressAllows(EgressOf(k.egress[i]), p, x)
      case In => exists i :: 0 <= i < |k.ingress| && CiliumIngressAllows(IngressOf(k.ingress[i]), p, x)
  {
    EgressesAt(k.egress);
    IngressesAt(k.ingress);
    hide CiliumEgressAllows, CiliumIngressAllows, EgressOf, IngressOf, EgressesOf, IngressesOf;
    assert forall i :: 0 <= i < |k.egress| ==> c.egress[i] == EgressOf(k.egress[i]);
    assert forall i :: 0 <= i < |k.ingress| ==> c.ingress[i] == IngressOf(k.ingress[i]);
  }

  /** A policy whose rules are all kept allows exactly the same connections after translation. */
  lemma MeaningIsPreserved(k: KnoxPolicy, c: CiliumPolicy, d: Direction, p: Peer, x: Traffic)
    requires IsTranslation(k, c) && AllKept(k)
    ensures Allows(k, d, p, x) <==> CiliumAllows(c, d, p, x)
  {
    CiliumSide(k, c, d, p, x);
    OutIsPreserved(k.egress, p, x);
    InIsPreserved(k.ingress, p, x);
    hide EgressAllows, IngressAllows, CiliumEgressAllows, CiliumIngressAllows, CiliumAllows, EgressOf, IngressOf,
      IsTranslation;
  }

  /** Translates one egress rule. */
  method ConvertEgress(r: Egress) returns (c: CiliumEgress)
    ensures c == EgressOf(r)
  {
    c := CiliumEgress([], [], [], [], [], [], []);
    if r.matchLabels != None {
      c := c.(toEndpoints := [r.matchLabels.value]);
    } else if |r.toCIDRs| > 0 {
      for i := 0 to |r.toCIDRs|
        invariant c == CiliumEgress([], [], [], LastCidrs(r.toCIDRs[..i]), [], [], [])
      {
        var cidrs := [] + r.toCIDRs[i].cidrs;
        c := c.(toCIDRs := cidrs);
      }
      assert r.toCIDRs[..|r.toCIDRs|] == r.toCIDRs;
    } else if |r.toEntities| > 0 {
      for i := 0 to |r.toEntities|
        invariant c == CiliumEgress([], [], [], [], r.toEntities[..i], [], [])
      {
        c := c.(toEntities := c.toEntities + [r.toEntities[i]]);
      }
    } else if |r.toFQDNs| > 0 {
      var names := [];
      for i := 0 to |r.toFQDNs|
        invariant names == AllNames(r.toFQDNs[..i])
      {
        assert r.toFQDNs[..i + 1][..i] == r.toFQDNs[..i];
        var before := names;
        for j := 0 to |r.toFQDNs[i]|
          invariant names == before + r.toFQDNs[i][..j]
        {
          names := names + [r.toFQDNs[i][j]];
        }
      }
      assert r.toFQDNs[..|r.toFQDNs|] == r.toFQDNs;
      c := c.(toFQDNs := names);
    } else if |r.toServices| > 0 {
      for i := 0 to |r.toServices|
        invariant c == CiliumEgress([], [], [], [], [], r.toServices[..i], [])
      {
        var service := r.toServices[i];
        c := c.(toServices := c.toServices + [SpecService(service.serviceName, service.namespace)]);
      }
    }
    var toPorts := BuildPorts(r.toPorts, r.toHTTPs, true);
    var icmps := BuildIcmps(r.icmps);
    c := c.(toPorts := toPorts, icmps := icmps);
  }

  /** Translates one ingress rule. */
  method ConvertIngress(r: Ingress) returns (c: CiliumIngress)
    ensures c == IngressOf(r)
  {
    c := CiliumIngress([], [], [], [], []);
    if r.matchLabels != None {
      c := c.(fromEndpoints := [r.matchLabels.value]);
    }
    var cidrs: seq<string>, entities: seq<string> := [], [];
    for i := 0 to |r.fromCIDRs|
      invariant cidrs == AllCidrs(r.fromCIDRs[..i])
    {
      assert r.fromCIDRs[..i + 1][..i] == r.fromCIDRs[..i];
      cidrs := cidrs + r.fromCIDRs[i].cidrs;
    }
    assert r.fromCIDRs[..|r.fromCIDRs|] == r.fromCIDRs;
    for i := 0 to |r.fromEntities|
      invariant entities == r.fromEntities[..i]
    {
      entities := entities + [r.fromEntities[i]];
    }
    var toPorts := BuildPorts(r.toPorts, r.toHTTPs, false);
    var icmps := BuildIcmps(r.icmps);
    c := c.(fromCIDRs := cidrs, fromEntities := entities, toPorts := toPorts, icmps := icmps);
  }

  lemma RulesStep(egress: seq<Egress>, ingress: seq<Ingress>, i: nat)
    ensures i < |egress| ==> EgressesOf(egress[..i + 1]) == EgressesOf(egress[..i]) + [EgressOf(egress[i])]
    ensures i < |ingress| ==> IngressesOf(ingress[..i + 1]) == IngressesOf(ingress[..i]) + [IngressOf(ingress[i])]
  {
    hide EgressOf, IngressOf;
    if i < |egress| { assert egress[..i + 1][..i] == egress[..i]; }
    if i < |ingress| { assert ingress[..i + 1][..i] == ingress[..i]; }
  }

  /** Translates a policy. */
  method ConvertPolicy(k: KnoxPolicy) returns (c: CiliumPolicy)
    ensures IsTranslation(k, c)
  {
    c := BuildNew(k);
    hide EgressOf, IngressOf;
    var egress, ingress := [], [];
    for i := 0 to |k.egress|
      invariant egress == EgressesOf(k.egress[..i])
    {
      RulesStep(k.egress, [], i);
      hide *;
      var ciliumEgress := ConvertEgress(k.egress[i]);
      egress := egress + [ciliumEgress];
    }
    assert k.egress[..|k.egress|] == k.egress;
    for i := 0 to |k.ingress|
      invariant ingress == IngressesOf(k.ingress[..i])
    {
      RulesStep([], k.ingress, i);
      hide *;
      var ciliumIngress := ConvertIngress(k.ingress[i]);
      ingress := ingress + [ciliumIngress];
    }
    assert k.ingress[..|k.ingress|] == k.ingress;
    c := c.(egress := egress, ingress := ingress);
  }

  method BuildNew(k: KnoxPolicy) returns (c: CiliumPolicy)
    ensures IsTranslation(k.(egress := [], ingress := []), c)
  {
    var metadata := map x | x in k.metadata && (x == "name" || x == "namespace") :: k.metadata[x];
    if k.kind == KIND_HOST {
      c := CiliumPolicy(KIND_CLUSTERWIDE, metadata, k.selector, map[], [], []);
    } else {
      c := CiliumPolicy(KIND_CILIUM, metadata, map[], k.selector, [], []);
    }
  }
}
