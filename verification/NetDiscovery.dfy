/** Discovery of network policies from logs: conversion of each log, grouping by selector, merging. */
module NetDiscovery {
  import opened Wrappers
  import opened NetPolicies
  import opened NetMerge

  datatype Pod = Pod(podName: string, labels: seq<string>)

  datatype Log = Log(srcNamespace: string, srcPodName: string, srcReservedLabels: seq<string>,
                     dstNamespace: string, dstPodName: string, dstReservedLabels: seq<string>,
                     protocol: int, dstPort: int, icmpType: int, isHTTP: bool, httpMethod: string, httpPath: string,
                     dnsQuery: string, direction: string, containerName: string)

  const UNKNOWN := -1
  const ICMP := 1
  const ICMP_V6 := 58
  const KIND_POLICY: string := "KnoxNetworkPolicy"
  const KIND_HOST_POLICY: string := "KnoxHostNetworkPolicy"
  const NAMESPACE_LABEL: string := "io.kubernetes.pod.namespace"

  predicate IsICMP(protocol: int) { protocol == ICMP || protocol == ICMP_V6 }

  function ProtocolName(protocol: int): string {
    if protocol == UNKNOWN then "Unknown" else if protocol == ICMP then "ICMP" else if protocol == 6 then "TCP"
    else if protocol == 17 then "UDP" else if protocol == ICMP_V6 then "ICMPv6"
    else if protocol == 132 then "SCTP" else ""
  }

  function Digit(n: nat): char
    requires n < 10
  {
    (n + '0' as int) as char
  }

  /** strconv.Itoa */
  function Itoa(n: int): string
    decreases if n < 0 then 1 else 0, if n < 0 then -n else n
  {
    if n < 0 then "-" + Itoa(-n) else if n < 10 then [Digit(n)] else Itoa(n / 10) + [Digit(n % 10)]
  }

  // ================================================================ labels

  function LabelsFromPod(podName: string, pods: seq<Pod>): seq<string> {
    if pods == [] then [] else if pods[0].podName == podName then pods[0].labels else LabelsFromPod(podName, pods[1..])
  }

  function EqualsAt(s: string): (i: nat)
    ensures i <= |s| && (i < |s| ==> s[i] == '=') && forall k :: 0 <= k < i ==> s[k] != '='
  {
    if s == "" || s[0] == '=' then 0 else 1 + EqualsAt(s[1..])
  }

  /** Labels with exactly one equals sign, later ones overriding. */
  function LabelMapOf(labels: seq<string>): LabelMap {
    if labels == [] then map[]
    else
      var before, l := LabelMapOf(labels[..|labels| - 1]), labels[|labels| - 1];
      var i := EqualsAt(l);
      if i < |l| && '=' !in l[i + 1..] then before[l[..i] := l[i + 1..]] else before
  }

  function EndpointLabels(podName: string, pods: seq<Pod>): LabelMap {
    LabelMapOf(LabelsFromPod(podName, pods))
  }

  function WithoutReserved(l: string): string {
    if "reserved:" <= l then l[9..] else l
  }

  predicate Reserves(labels: seq<string>, entity: string) {
    exists l :: l in labels && WithoutReserved(l) == entity
  }

  /** The most specific entity of the reserved labels. */
  function EntityOf(labels: seq<string>): string {
    if Reserves(labels, "kube-apiserver") then "kube-apiserver"
    else if Reserves(labels, "world") then "world"
    else if Reserves(labels, "remote-node") then "remote-node"
    else if Reserves(labels, "host") then "host"
    else ""
  }

  predicate IsVM(podName: string, pods: seq<Pod>) {
    "reserved:host" in LabelsFromPod(podName, pods)
  }

  // ================================================================ one log

  /** The rule with the port or ICMP type and the request of the log. */
  function WithTraffic(log: Log, r: Rule): Rule {
    var l4 := if !IsICMP(log.protocol) then r.(ports := [SpecPort(Itoa(log.dstPort), ProtocolName(log.protocol))])
              else r.(icmps := [SpecICMP(if log.protocol == ICMP_V6 then "IPv6" else "IPv4", log.icmpType % 256)]);
    if log.isHTTP then l4.(https := [SpecHTTP(log.httpMethod, log.httpPath, false)]) else l4
  }

  function EndpointRule(log: Log, podName: string, namespace: string, pods: seq<Pod>): Rule {
    var labels := EndpointLabels(podName, pods);
    var across := log.srcNamespace != log.dstNamespace;
    WithTraffic(log, NO_RULE.(labels := if across then labels[NAMESPACE_LABEL := namespace] else labels))
  }

  function AddressRule(log: Log): Rule {
    NO_RULE.(ports := [SpecPort(Itoa(log.dstPort), ProtocolName(log.protocol))],
             cidrs := [SpecCIDR(["0.0.0.0/32"], [])])
  }

  function EntityRule(log: Log, labels: seq<string>, dir: Dir): Rule {
    var entity := EntityOf(labels);
    var byName := dir == EgressDir && entity == "world" && log.dnsQuery != "";
    WithTraffic(log, if byName then NO_RULE.(fqdns := [[log.dnsQuery]]) else NO_RULE.(entities := [entity]))
  }

  /** The policy of one direction before validation. */
  function Draft(log: Log, pods: seq<Pod>, dir: Dir): Option<Policy> {
    if log.srcPodName != "" && log.dstPodName != "" then
      if dir == EgressDir then
        Some(Policy(dir, KIND_POLICY, EndpointLabels(log.dstPodName, pods), log.dstNamespace, "",
                    [EndpointRule(log, log.srcPodName, log.srcNamespace, pods)]))
      else
        Some(Policy(dir, KIND_POLICY, EndpointLabels(log.srcPodName, pods), log.srcNamespace, "",
                    [EndpointRule(log, log.dstPodName, log.dstNamespace, pods)]))
    else if log.srcPodName == "" && log.srcReservedLabels != [] then
      if dir == IngressDir && EntityOf(log.srcReservedLabels) != "" then
        Some(Policy(dir, KIND_POLICY, EndpointLabels(log.dstPodName, pods), log.dstNamespace, log.containerName,
                    [EntityRule(log, log.srcReservedLabels, dir)]))
      else None
    else if log.dstPodName == "" && log.dstReservedLabels != [] then
      if dir == EgressDir && EntityOf(log.dstReservedLabels) != "" then
        Some(Policy(dir, KIND_POLICY, EndpointLabels(log.srcPodName, pods), log.srcNamespace, log.containerName,
                    [EntityRule(log, log.dstReservedLabels, dir)]))
      else None
    else if log.dstPodName == "" && log.dstReservedLabels == [] then
      if (dir == EgressDir && log.direction == "EGRESS") || (dir == IngressDir && log.direction == "INGRESS") then
        Some(Policy(dir, KIND_POLICY, EndpointLabels(log.srcPodName, pods), log.srcNamespace, log.containerName,
                    [AddressRule(log)]))
      else None
    else None
  }

  /** A rule has a peer and a port or ICMP type, and HTTP only over TCP. */
  predicate ValidRule(dir: Dir, r: Rule) {
    && (r.labels != map[] || r.entities != [] || r.cidrs != [] || (dir == EgressDir && r.fqdns != []))
    && (r.ports != [] || r.icmps != [])
    && (r.https != [] ==> r.ports != [] && forall p :: p in r.ports ==> p.protocol == "TCP")
  }

  predicate IsValidPolicy(p: Policy) {
    && p.selector != map[] && p.rules != []
    && forall i :: 0 <= i < |p.rules| ==> ValidRule(p.dir, p.rules[i])
  }

  /** The policy a log gives for one direction. */
  function Convert(log: Log, pods: seq<Pod>, dir: Dir): Option<Policy> {
    var draft := Draft(log, pods, dir);
    if draft == None || !IsValidPolicy(draft.value) then None
    else
      var podName := if dir == EgressDir then log.srcPodName else log.dstPodName;
      if podName != "" && IsVM(podName, pods) then Some(draft.value.(kind := KIND_HOST_POLICY)) else draft
  }

  /** One rule, about one kind of peer and one port or one ICMP type. */
  predicate Proper(p: Policy, dir: Dir) {
    && p.dir == dir && |p.rules| == 1 && AllReadable(p.rules) && IsValidPolicy(p)
    && |p.rules[0].ports| + |p.rules[0].icmps| == 1
  }

  /** What a log converts to is a valid policy of one readable rule. */
  lemma ConvertedIsProper(log: Log, pods: seq<Pod>, dir: Dir)
    ensures Convert(log, pods, dir).Some? ==> Proper(Convert(log, pods, dir).value, dir)
  {
    hide Itoa, ProtocolName, EndpointLabels, EntityOf, IsVM;
    if Convert(log, pods, dir).Some? {
      var p, d := Convert(log, pods, dir).value, Draft(log, pods, dir).value;
      assert p.rules == d.rules && |d.rules| == 1;
    }
  }

  /** The log seen from the other side, without the domain name that only egress looks at. */
  function Mirrored(log: Log): Log {
    log.(srcNamespace := log.dstNamespace, srcPodName := log.dstPodName, srcReservedLabels := log.dstReservedLabels,
         dstNamespace := log.srcNamespace, dstPodName := log.srcPodName, dstReservedLabels := log.srcReservedLabels,
         dnsQuery := "")
  }

  /** Both directions are treated alike: what a log to a pod gives for ingress is what its mirror image
      gives for egress. */
  lemma DirectionsAreMirrored(log: Log, pods: seq<Pod>)
    requires log.dstPodName != "" && (log.srcPodName != "" || log.srcReservedLabels != [])
    ensures var i, e := Convert(log, pods, IngressDir), Convert(Mirrored(log), pods, EgressDir);
      (i == None <==> e == None) && (i.Some? ==> e.value == i.value.(dir := EgressDir))
  {
    hide Itoa, ProtocolName, EndpointLabels, EntityOf, IsVM;
    var i, e := Draft(log, pods, IngressDir), Draft(Mirrored(log), pods, EgressDir);
    assert (i == None <==> e == None) && (i.Some? ==> e.value == i.value.(dir := EgressDir));
    if i.Some? {
      assert i.value.rules == e.value.rules && |i.value.rules| == 1 && i.value.rules[0].fqdns == [];
      assert IsValidPolicy(i.value) <==> IsValidPolicy(e.value);
    }
  }

  /** Between two pods the egress policy selects the destination and grants the source; it selects the
      source, as its announcement says, exactly when both have the same labels. */
  lemma EgressSelectsDestination(log: Log, pods: seq<Pod>)
    requires log.srcPodName != "" && log.dstPodName != "" && Convert(log, pods, EgressDir).Some?
    ensures var e := Convert(log, pods, EgressDir).value;
      e.selector == EndpointLabels(log.dstPodName, pods) && e.namespace == log.dstNamespace
    ensures Convert(log, pods, EgressDir).value.selector == EndpointLabels(log.srcPodName, pods) <==>
            EndpointLabels(log.srcPodName, pods) == EndpointLabels(log.dstPodName, pods)
    ensures log.srcNamespace == log.dstNamespace ==>
      Convert(log, pods, EgressDir).value.rules[0].labels == EndpointLabels(log.srcPodName, pods)
  {
    hide Itoa, ProtocolName, EndpointLabels, IsVM;
  }

  lemma OneLabel(text: string, k: string, v: string)
    requires text == k + "=" + v && '=' !in k && '=' !in v
    ensures LabelMapOf([text]) == map[k := v] && map[k := v] != map[]
  {
    var i := EqualsAt(text);
    assert text[|k|] == '=' && forall j :: 0 <= j < |k| ==> text[j] == k[j];
    assert i == |k|;
    assert text[..i] == k && text[i + 1..] == v;
    assert k in map[k := v];
    assert LabelMapOf([]) == map[] && [text][..0] == [];
  }

  /** A connection from a client to a server: the egress policy selects the server's pods. */
  lemma ClientToServer(log: Log)
    requires log.srcPodName == "client" && log.dstPodName == "server" && log.srcNamespace == log.dstNamespace
      && log.protocol == 6 && !log.isHTTP
    ensures var pods := [Pod("client", ["app=c"]), Pod("server", ["app=s"])];
      var e := Convert(log, pods, EgressDir);
      e.Some? && e.value.selector == map["app" := "s"] && e.value.rules[0].labels == map["app" := "c"]
  {
    var pods := [Pod("client", ["app=c"]), Pod("server", ["app=s"])];
    OneLabel("app=c", "app", "c");
    OneLabel("app=s", "app", "s");
    assert LabelsFromPod("client", pods) == ["app=c"];
    assert pods[1..] == [pods[1]];
    assert LabelsFromPod("server", pods) == LabelsFromPod("server", pods[1..]) == ["app=s"];
    TwoPodsDraft(log, pods);
  }

  lemma TwoPodsDraft(log: Log, pods: seq<Pod>)
    requires log.srcPodName != "" && log.dstPodName != ""
    requires log.srcNamespace == log.dstNamespace && !IsICMP(log.protocol) && !log.isHTTP
    requires EndpointLabels(log.srcPodName, pods) != map[] && EndpointLabels(log.dstPodName, pods) != map[]
    ensures var e := Convert(log, pods, EgressDir);
      e.Some? && e.value.selector == EndpointLabels(log.dstPodName, pods) && |e.value.rules| == 1
      && e.value.rules[0].labels == EndpointLabels(log.srcPodName, pods)
  {
    hide Itoa, ProtocolName, EndpointLabels, IsVM;
    var d := Draft(log, pods, EgressDir);
    assert |d.value.rules| == 1 && ValidRule(EgressDir, d.value.rules[0]);
  }

  // ================================================================ grouping

  datatype Selector = Selector(kind: string, labels: LabelMap)

  function SelectorOf(p: Policy): Selector { Selector(p.kind, p.selector) }

  /** The policies of one direction and selector that the logs give, in order. */
  function PoliciesFor(logs: seq<Log>, pods: seq<Pod>, dir: Dir, s: Selector): seq<Policy> {
    if logs == [] then []
    else
      var c := Convert(logs[|logs| - 1], pods, dir);
      PoliciesFor(logs[..|logs| - 1], pods, dir, s) + if c.Some? && SelectorOf(c.value) == s then [c.value] else []
  }

  ghost predicate Gives(log: Log, pods: seq<Pod>, dir: Dir, p: Policy) {
    Convert(log, pods, dir) == Some(p)
  }

  ghost predicate Given(logs: seq<Log>, pods: seq<Pod>, dir: Dir, p: Policy) {
    exists i :: 0 <= i < |logs| && Gives(logs[i], pods, dir, p)
  }

  lemma {:induction false} PoliciesForMembers(logs: seq<Log>, pods: seq<Pod>, dir: Dir, s: Selector, p: Policy)
    ensures p in PoliciesFor(logs, pods, dir, s) <==> SelectorOf(p) == s && Given(logs, pods, dir, p)
  {
    hide Convert, SelectorOf;
    if logs != [] {
      var last := |logs| - 1;
      PoliciesForMembers(logs[..last], pods, dir, s, p);
      GivenByLast(logs, pods, dir, p);
      hide Given;
      assert Gives(logs[last], pods, dir, p) <==> Convert(logs[last], pods, dir) == Some(p);
    }
  }

  lemma GivenByLast(logs: seq<Log>, pods: seq<Pod>, dir: Dir, p: Policy)
    requires logs != []
    ensures Given(logs, pods, dir, p) <==>
      Gives(logs[|logs| - 1], pods, dir, p) || Given(logs[..|logs| - 1], pods, dir, p)
  {
    hide Gives;
    var init := logs[..|logs| - 1];
    if i :| 0 <= i < |init| && Gives(init[i], pods, dir, p) { assert Gives(logs[i], pods, dir, p); }
    if i :| 0 <= i < |logs| && Gives(logs[i], pods, dir, p) {
      if i < |init| { assert Gives(init[i], pods, dir, p); }
    }
  }

  lemma PoliciesForProper(logs: seq<Log>, pods: seq<Pod>, dir: Dir, s: Selector)
    ensures forall i :: 0 <= i < |PoliciesFor(logs, pods, dir, s)| ==>
      Proper(PoliciesFor(logs, pods, dir, s)[i], dir) && SelectorOf(PoliciesFor(logs, pods, dir, s)[i]) == s
    ensures AllPoliciesReadable(PoliciesFor(logs, pods, dir, s))
  {
    var ps := PoliciesFor(logs, pods, dir, s);
    forall i | 0 <= i < |ps| ensures Proper(ps[i], dir) && SelectorOf(ps[i]) == s {
      PoliciesForMembers(logs, pods, dir, s, ps[i]);
      var k :| 0 <= k < |logs| && Gives(logs[k], pods, dir, ps[i]);
      ConvertedIsProper(logs[k], pods, dir);
    }
  }

  /** The one policy for a direction and selector: the first, with the rules of the others merged in. */
  function MergedFor(logs: seq<Log>, pods: seq<Pod>, dir: Dir, s: Selector): Policy
    requires PoliciesFor(logs, pods, dir, s) != []
  {
    var ps := PoliciesFor(logs, pods, dir, s);
    PoliciesForProper(logs, pods, dir, s);
    RulesOfReadable(ps[1..]);
    ps[0].(rules := WithRules(ps[0].rules, RulesOf(ps[1..])))
  }

  /** Some log converts to a rule of the selector with this peer and port. */
  ghost predicate Logged(logs: seq<Log>, pods: seq<Pod>, dir: Dir, s: Selector, p: PeerKey, l: L4Key) {
    exists i :: 0 <= i < |logs| && LoggedBy(logs[i], pods, dir, s, p, l)
  }

  ghost predicate LoggedBy(log: Log, pods: seq<Pod>, dir: Dir, s: Selector, p: PeerKey, l: L4Key) {
    var c := Convert(log, pods, dir);
    c.Some? && SelectorOf(c.value) == s && AllReadable(c.value.rules) && HasKey(c.value.rules, p, l)
  }

  lemma {:induction false} KeyOfRules(policies: seq<Policy>, p: PeerKey, l: L4Key)
    requires AllPoliciesReadable(policies)
    ensures AllReadable(RulesOf(policies))
    ensures HasKey(RulesOf(policies), p, l) <==> exists i :: 0 <= i < |policies| && HasKey(policies[i].rules, p, l)
    decreases |policies|
  {
    RulesOfReadable(policies);
    if policies != [] {
      var last := |policies| - 1;
      var init := policies[..last];
      KeyOfRules(init, p, l);
      KeyOfBoth(RulesOf(init), policies[last].rules, p, l);
      hide HasKey, RulesOf;
      if i :| 0 <= i < last && HasKey(init[i].rules, p, l) { assert HasKey(policies[i].rules, p, l); }
      if i :| 0 <= i < |policies| && HasKey(policies[i].rules, p, l) {
        if i < last { assert HasKey(init[i].rules, p, l); }
      }
    }
  }

  lemma KeyOfBoth(a: seq<Rule>, b: seq<Rule>, p: PeerKey, l: L4Key)
    requires AllReadable(a) && AllReadable(b)
    ensures AllReadable(a + b) && (HasKey(a + b, p, l) <==> HasKey(a, p, l) || HasKey(b, p, l))
  {
    hide PeerOf, L4Of;
    var all := a + b;
    if HasKey(a, p, l) {
      var i :| 0 <= i < |a| && PeerOf(a[i]) == p && L4Of(a[i]) == l;
      assert all[i] == a[i];
    }
    if HasKey(b, p, l) {
      var i :| 0 <= i < |b| && PeerOf(b[i]) == p && L4Of(b[i]) == l;
      assert all[|a| + i] == b[i];
    }
    if HasKey(all, p, l) {
      var i :| 0 <= i < |all| && PeerOf(all[i]) == p && L4Of(all[i]) == l;
      if i < |a| { assert all[i] == a[i]; } else { assert all[i] == b[i - |a|]; }
    }
  }

  /** The grants of a discovered policy are exact: for labelled endpoints, entities and domain names it has
      exactly the peer and port pairs of the logs that convert to it, each once. */
  lemma DiscoveredKeysAreExact(logs: seq<Log>, pods: seq<Pod>, dir: Dir, s: Selector, p: PeerKey, l: L4Key)
    requires PoliciesFor(logs, pods, dir, s) != [] && p != Unmatched
    ensures AllReadable(MergedFor(logs, pods, dir, s).rules) && UniqueKeys(MergedFor(logs, pods, dir, s).rules)
    ensures HasKey(MergedFor(logs, pods, dir, s).rules, p, l) <==> Logged(logs, pods, dir, s, p, l)
  {
    var ps := PoliciesFor(logs, pods, dir, s);
    PoliciesForProper(logs, pods, dir, s);
    RulesOfReadable(ps[1..]);
    KeyOfRules(ps[1..], p, l);
    MergedKeysAreExact(ps[0].rules, RulesOf(ps[1..]), p, l);
    OneRuleIsUnique(ps[0].rules);
    MergedKeysAreUnique(ps[0].rules, RulesOf(ps[1..]));
    AnyOfPolicies(ps, p, l);
    LoggedIsGiven(logs, pods, dir, s, p, l);
  }

  lemma OneRuleIsUnique(rules: seq<Rule>)
    requires AllReadable(rules) && |rules| == 1
    ensures UniqueKeys(rules)
  {
  }

  lemma AnyOfPolicies(ps: seq<Policy>, p: PeerKey, l: L4Key)
    requires AllPoliciesReadable(ps) && ps != []
    ensures (exists i :: 0 <= i < |ps| && HasKey(ps[i].rules, p, l)) <==>
      HasKey(ps[0].rules, p, l) || exists i :: 0 <= i < |ps[1..]| && HasKey(ps[1..][i].rules, p, l)
  {
    hide HasKey;
    var rest := ps[1..];
    if i :| 0 <= i < |ps| && HasKey(ps[i].rules, p, l) {
      if i > 0 { assert HasKey(rest[i - 1].rules, p, l); }
    }
    if i :| 0 <= i < |rest| && HasKey(rest[i].rules, p, l) { assert HasKey(ps[i + 1].rules, p, l); }
  }

  lemma LoggedIsGiven(logs: seq<Log>, pods: seq<Pod>, dir: Dir, s: Selector, p: PeerKey, l: L4Key)
    requires AllPoliciesReadable(PoliciesFor(logs, pods, dir, s))
    ensures Logged(logs, pods, dir, s, p, l) <==>
      exists i :: 0 <= i < |PoliciesFor(logs, pods, dir, s)| && HasKey(PoliciesFor(logs, pods, dir, s)[i].rules, p, l)
  {
    hide HasKey, Convert;
    var ps := PoliciesFor(logs, pods, dir, s);
    if i :| 0 <= i < |ps| && HasKey(ps[i].rules, p, l) {
      PoliciesForMembers(logs, pods, dir, s, ps[i]);
      var k :| 0 <= k < |logs| && Gives(logs[k], pods, dir, ps[i]);
      assert LoggedBy(logs[k], pods, dir, s, p, l);
    }
    if k :| 0 <= k < |logs| && LoggedBy(logs[k], pods, dir, s, p, l) {
      var q := Convert(logs[k], pods, dir).value;
      assert Gives(logs[k], pods, dir, q);
      PoliciesForMembers(logs, pods, dir, s, q);
      var i :| 0 <= i < |ps| && ps[i] == q;
      assert HasKey(ps[i].rules, p, l);
    }
  }

  /** The HTTP rules of a discovered policy: whenever merging has got as far as the first n further rules,
      those that each rule ends with are the ones that last from there. */
  lemma DiscoveredHttpExactly(logs: seq<Log>, pods: seq<Pod>, dir: Dir, s: Selector, n: nat, i: nat, h: SpecHTTP)
    requires PoliciesFor(logs, pods, dir, s) != []
    requires var ps := PoliciesFor(logs, pods, dir, s); n <= |RulesOf(ps[1..])|
    ensures var ps, merged := PoliciesFor(logs, pods, dir, s), MergedFor(logs, pods, dir, s).rules;
      var more := RulesOf(ps[1..]);
      && AllReadable(ps[0].rules) && AllReadable(more)
      && var rules := WithRules(ps[0].rules, more[..n]);
        i < |rules| ==> i < |merged| && (h in merged[i].https <==> Lasts(rules, more[n..], i, h))
  {
    var ps := PoliciesFor(logs, pods, dir, s);
    PoliciesForProper(logs, pods, dir, s);
    hide Convert, Draft, PoliciesFor, SelectorOf;
    RulesOfReadable(ps[1..]);
    var more := RulesOf(ps[1..]);
    assert Proper(ps[0], dir);
    hide Lasts, RulesOf, WithRules, PoliciesFor, Proper;
    var rules := WithRules(ps[0].rules, more[..n]);
    MergeInTwo(ps[0].rules, more, n);
    if i < |rules| { HttpAfterMergesExactly(rules, more[n..], i, h); }
  }

  // ================================================================ validity

  ghost predicate ValidRules(dir: Dir, rules: seq<Rule>) {
    forall i :: 0 <= i < |rules| ==> ValidRule(dir, rules[i]) && |rules[i].ports| <= 1
  }

  lemma {:induction false} AbsorbStaysValid(dir: Dir, rules: seq<Rule>, r: Rule)
    requires AllReadable(rules) && Readable(r) && ValidRules(dir, rules) && ValidRule(dir, r) && |r.ports| <= 1
    ensures ValidRules(dir, Absorb(rules, r).0)
    decreases |rules|
  {
    if rules != [] {
      assert ValidRules(dir, rules[1..]);
      AbsorbStaysValid(dir, rules[1..], r);
      if L4Of(rules[0]) == L4Of(r) { KeptIsValid(dir, rules[0], r); }
    }
  }

  lemma KeptIsValid(dir: Dir, x: Rule, r: Rule)
    requires Readable(x) && Readable(r) && L4Of(x) == L4Of(r)
    requires ValidRule(dir, x) && ValidRule(dir, r) && |x.ports| <= 1 && |r.ports| <= 1
    ensures ValidRule(dir, x.(https := Kept(x, r)))
  {
    if x.icmps == [] && Kept(x, r) != [] {
      assert x.ports == [x.ports[0]];
      if x.https == [] {
        NothingToAdd(x.https, r.https);
        assert r.ports[0] in r.ports && x.ports[0] == r.ports[0];
      }
    }
  }

  lemma NothingToAdd(exist: seq<SpecHTTP>, more: seq<SpecHTTP>)
    ensures more == [] ==> AddNew(exist, more) == []
  {
  }

  lemma {:induction false} MergedStaysValid(dir: Dir, rules: seq<Rule>, more: seq<Rule>)
    requires AllReadable(rules) && AllReadable(more) && ValidRules(dir, rules) && ValidRules(dir, more)
    ensures ValidRules(dir, WithRules(rules, more))
    decreases |more|
  {
    if more != [] {
      MergedStaysValid(dir, rules, more[..|more| - 1]);
      AbsorbStaysValid(dir, WithRules(rules, more[..|more| - 1]), more[|more| - 1]);
    }
  }

  lemma {:induction false} RulesOfValid(dir: Dir, policies: seq<Policy>)
    requires forall i :: 0 <= i < |policies| ==> Proper(policies[i], dir)
    ensures ValidRules(dir, RulesOf(policies))
  {
    if policies != [] {
      RulesOfValid(dir, policies[..|policies| - 1]);
      assert Proper(policies[|policies| - 1], dir);
    }
  }

  lemma ClassStaysValid(dir: Dir, ps: seq<Policy>)
    requires ps != [] && forall i :: 0 <= i < |ps| ==> Proper(ps[i], dir)
    requires AllReadable(ps[0].rules) && AllReadable(RulesOf(ps[1..]))
    ensures IsValidPolicy(ps[0].(rules := WithRules(ps[0].rules, RulesOf(ps[1..]))))
  {
    assert Proper(ps[0], dir);
    RulesOfValid(dir, ps[1..]);
    MergedStaysValid(dir, ps[0].rules, RulesOf(ps[1..]));
    MergedRulesStay(ps[0].rules, RulesOf(ps[1..]));
    hide WithRules, RulesOf, ValidRule;
  }

  /** The merged policy is valid again. */
  lemma DiscoveredIsValid(logs: seq<Log>, pods: seq<Pod>, dir: Dir, s: Selector)
    requires PoliciesFor(logs, pods, dir, s) != []
    ensures IsValidPolicy(MergedFor(logs, pods, dir, s)) && SelectorOf(MergedFor(logs, pods, dir, s)) == s
  {
    var ps := PoliciesFor(logs, pods, dir, s);
    PoliciesForProper(logs, pods, dir, s);
    RulesOfReadable(ps[1..]);
    ClassStaysValid(dir, ps);
    hide PoliciesFor, WithRules, RulesOf, IsValidPolicy, Proper;
  }

  // ================================================================ the discovery loops

  /** The groups hold, for each selector, the policies of the logs. */
  ghost predicate Groups(logs: seq<Log>, pods: seq<Pod>, dir: Dir, groups: map<Selector, seq<Policy>>) {
    forall s ::
      && (s in groups <==> PoliciesFor(logs, pods, dir, s) != [])
      && (s in groups ==> groups[s] == PoliciesFor(logs, pods, dir, s))
  }

  function Grouped(groups: map<Selector, seq<Policy>>, p: Policy): map<Selector, seq<Policy>> {
    groups[SelectorOf(p) := (if SelectorOf(p) in groups then groups[SelectorOf(p)] else []) + [p]]
  }

  lemma GroupsStep(logs: seq<Log>, i: nat, pods: seq<Pod>, dir: Dir, groups: map<Selector, seq<Policy>>)
    requires i < |logs| && Groups(logs[..i], pods, dir, groups)
    ensures var c := Convert(logs[i], pods, dir);
      Groups(logs[..i + 1], pods, dir, if c.Some? then Grouped(groups, c.value) else groups)
  {
    assert logs[..i + 1][..i] == logs[..i];
    hide Convert;
    forall s ensures PoliciesFor(logs[..i + 1], pods, dir, s) == PoliciesFor(logs[..i], pods, dir, s)
      + var c := Convert(logs[i], pods, dir); if c.Some? && SelectorOf(c.value) == s then [c.value] else [] {}
  }

  /** One policy for each selector. */
  ghost predicate MergedGroups(logs: seq<Log>, pods: seq<Pod>, dir: Dir, groups: map<Selector, seq<Policy>>,
                               merged: seq<Policy>) {
    && (forall s :: s in groups <==> PoliciesFor(logs, pods, dir, s) != [])
    && (forall s :: s in groups ==> MergedFor(logs, pods, dir, s) in merged)
    && (forall i :: 0 <= i < |merged| ==> IsMergedFor(logs, pods, dir, merged[i]))
    && forall i, j :: 0 <= i < j < |merged| ==> SelectorOf(merged[i]) != SelectorOf(merged[j])
  }

  ghost predicate IsMergedFor(logs: seq<Log>, pods: seq<Pod>, dir: Dir, p: Policy) {
    PoliciesFor(logs, pods, dir, SelectorOf(p)) != [] && p == MergedFor(logs, pods, dir, SelectorOf(p))
  }

  /** Merges every group into one policy, in the order of the hash map. */
  method MergeGroups(ghost logs: seq<Log>, ghost pods: seq<Pod>, ghost dir: Dir, groups: map<Selector, seq<Policy>>)
      returns (merged: seq<Policy>)
    requires Groups(logs, pods, dir, groups)
    ensures MergedGroups(logs, pods, dir, groups, merged)
  {
    hide PoliciesFor, MergedFor;
    merged := [];
    var todo := groups.Keys;
    while todo != {}
      invariant todo <= groups.Keys
      invariant forall s :: s in groups && s !in todo ==>
        PoliciesFor(logs, pods, dir, s) != [] && MergedFor(logs, pods, dir, s) in merged
      invariant forall i :: 0 <= i < |merged| ==>
        IsMergedFor(logs, pods, dir, merged[i]) && SelectorOf(merged[i]) !in todo
      invariant forall i, j :: 0 <= i < j < |merged| ==> SelectorOf(merged[i]) != SelectorOf(merged[j])
      decreases |todo|
    {
      var s :| s in todo;
      var p := MergeGroup(logs, pods, dir, s, groups[s]);
      merged := merged + [p];
      todo := todo - {s};
    }
  }

  method MergeGroup(ghost logs: seq<Log>, ghost pods: seq<Pod>, ghost dir: Dir, ghost s: Selector,
                    policies: seq<Policy>)
      returns (p: Policy)
    requires policies != [] && policies == PoliciesFor(logs, pods, dir, s)
    ensures PoliciesFor(logs, pods, dir, s) != [] && p == MergedFor(logs, pods, dir, s) && SelectorOf(p) == s
    ensures IsMergedFor(logs, pods, dir, p)
  {
    PoliciesForProper(logs, pods, dir, s);
    DiscoveredIsValid(logs, pods, dir, s);
    hide PoliciesFor, Proper;
    p := policies[0];
    if |policies| > 1 {
      p := MergePolicies(policies[0], policies[1..]);
    } else {
      NothingToMerge(policies);
    }
  }

  lemma NothingToMerge(policies: seq<Policy>)
    requires |policies| == 1 && AllReadable(policies[0].rules)
    ensures policies[1..] == [] && RulesOf(policies[1..]) == [] && WithRules(policies[0].rules, []) == policies[0].rules
  {
  }

  /** Converts the logs, groups them by selector, and merges each group. */
  method DiscoverNetworkPolicy(logs: seq<Log>, pods: seq<Pod>)
      returns (networkPolicies: seq<Policy>, ghost ingress: seq<Policy>, ghost egress: seq<Policy>)
    ensures networkPolicies == ingress + egress
    ensures exists groups :: MergedGroups(logs, pods, IngressDir, groups, ingress)
    ensures exists groups :: MergedGroups(logs, pods, EgressDir, groups, egress)
  {
    hide Convert, PoliciesFor;
    var ingressPolicies: map<Selector, seq<Policy>>, egressPolicies: map<Selector, seq<Policy>> := map[], map[];
    NoGroups(pods);
    hide Groups, MergedGroups;
    for i := 0 to |logs|
      invariant Groups(logs[..i], pods, IngressDir, ingressPolicies)
        && Groups(logs[..i], pods, EgressDir, egressPolicies)
    {
      GroupsStep(logs, i, pods, IngressDir, ingressPolicies);
      GroupsStep(logs, i, pods, EgressDir, egressPolicies);
      var newIngress, newEgress := Convert(logs[i], pods, IngressDir), Convert(logs[i], pods, EgressDir);
      if newIngress != None {
        ingressPolicies := Grouped(ingressPolicies, newIngress.value);
      }
      if newEgress != None {
        egressPolicies := Grouped(egressPolicies, newEgress.value);
      }
    }
    assert logs[..|logs|] == logs;
    var mergedIngress := MergeGroups(logs, pods, IngressDir, ingressPolicies);
    var mergedEgress := MergeGroups(logs, pods, EgressDir, egressPolicies);
    ingress, egress := mergedIngress, mergedEgress;
    networkPolicies := mergedIngress + mergedEgress;
  }

  lemma NoGroups(pods: seq<Pod>)
    ensures Groups([], pods, IngressDir, map[]) && Groups([], pods, EgressDir, map[])
  {
  }
}
