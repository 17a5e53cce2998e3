/** What discovered network policies grant, in terms of the logs: the traffic, the peers and the kind that a log
    gives, and one rule for each grant in the policy of its selector. */
module NetGrants {
  import opened Wrappers
  import opened NetPolicies
  import opened NetMerge
  import opened NetDiscovery

  // ================================================================ numbers as texts

  /** The number that a decimal text stands for. */
  function Value(s: string): nat
    requires forall i :: 0 <= i < |s| ==> '0' <= s[i] <= '9'
  {
    if s == "" then 0 else 10 * Value(s[..|s| - 1]) + (s[|s| - 1] as int - '0' as int)
  }

  /** The text is a decimal number, with a minus sign if it is negative. */
  ghost predicate Reads(s: string, n: int) {
    if n < 0 then s != "" && s[0] == '-' && Reads(s[1..], -n)
    else s != "" && (forall i :: 0 <= i < |s| ==> '0' <= s[i] <= '9') && Value(s) == n
  }

  lemma ItoaReads(n: int)
    ensures Reads(Itoa(n), n)
  {
    if n < 0 {
      DigitsRead(-n);
      hide Reads;
      assert Itoa(n) == "-" + Itoa(-n);
      NegativeReads(Itoa(-n), -n);
    } else {
      DigitsRead(n);
    }
  }

  lemma NegativeReads(s: string, n: int)
    requires Reads(s, n) && n > 0
    ensures Reads("-" + s, -n)
  {
    assert ("-" + s)[1..] == s;
  }

  lemma {:induction false} DigitsRead(n: nat)
    ensures Reads(Itoa(n), n)
  {
    if n < 10 {
      assert Itoa(n) == [Digit(n)];
      assert [Digit(n)][..0] == "" && Value("") == 0;
      assert Value([Digit(n)]) == n;
    } else {
      DigitsRead(n / 10);
      hide Reads;
      OneMoreDigit(Itoa(n / 10), n / 10, n % 10);
      assert Itoa(n) == Itoa(n / 10) + [Digit(n % 10)];
      assert n == 10 * (n / 10) + n % 10;
    }
  }

  lemma OneMoreDigit(s: string, m: nat, d: nat)
    requires Reads(s, m) && d < 10
    ensures Reads(s + [Digit(d)], 10 * m + d)
  {
    var r := s + [Digit(d)];
    assert r[..|r| - 1] == s && r[|r| - 1] == Digit(d);
    assert forall i :: 0 <= i < |r| ==> r[i] == if i < |s| then s[i] else Digit(d);
  }

  /** Different numbers have different texts. */
  lemma {:induction false} ReadsOne(s: string, m: int, n: int)
    requires Reads(s, m) && Reads(s, n)
    ensures m == n
    decreases |s|
  {
    if m < 0 && n < 0 { ReadsOne(s[1..], -m, -n); }
  }

  // ================================================================ the traffic of a log

  /** The port and its protocol, or the ICMP type, and the request, that a log names. */
  ghost predicate TrafficOf(log: Log, r: Rule) {
    if log.protocol == 1 || log.protocol == 58 then
      && r.ports == [] && r.https == []
      && r.icmps == [SpecICMP(if log.protocol == 58 then "IPv6" else "IPv4", log.icmpType % 256)]
    else
      && r.icmps == [] && |r.ports| == 1 && Reads(r.ports[0].port, log.dstPort)
      && (log.protocol == 6 ==> r.ports[0].protocol == "TCP")
      && (log.protocol == 17 ==> r.ports[0].protocol == "UDP")
      && (log.protocol == 132 ==> r.ports[0].protocol == "SCTP")
      && (log.protocol !in {6, 17, 132} ==> r.ports[0].protocol in {"Unknown", ""})
      && r.https == if log.isHTTP then [SpecHTTP(log.httpMethod, log.httpPath, false)] else []
  }

  /** The log names an address: neither the destination pod nor a reserved label of it is known. */
  predicate NamesAddress(log: Log) {
    log.dstPodName == "" && log.dstReservedLabels == [] && (log.srcPodName != "" || log.srcReservedLabels == [])
  }

  /** What a log converts to has the traffic that the log names; for an address always a port. */
  lemma ConvertedTraffic(log: Log, pods: seq<Pod>, dir: Dir)
    requires Convert(log, pods, dir).Some?
    ensures |Convert(log, pods, dir).value.rules| == 1
    ensures var r := Convert(log, pods, dir).value.rules[0];
      if NamesAddress(log) then |r.ports| == 1 && Reads(r.ports[0].port, log.dstPort) && r.icmps == [] && r.https == []
      else TrafficOf(log, r)
  {
    ItoaReads(log.dstPort);
    hide Itoa, EndpointLabels, EntityOf, IsVM, Reads;
    var d := Draft(log, pods, dir).value;
    assert |d.rules| == 1 && Convert(log, pods, dir).value.rules == d.rules;
    assert ValidRule(dir, d.rules[0]);
  }

  /** An HTTP log over TCP between labelled pods converts in both directions, with its request. */
  lemma HttpLogConverts(log: Log, pods: seq<Pod>, dir: Dir)
    requires log.srcPodName != "" && log.dstPodName != "" && log.protocol == 6 && log.isHTTP
    requires EndpointLabels(log.srcPodName, pods) != map[] && EndpointLabels(log.dstPodName, pods) != map[]
    ensures Convert(log, pods, dir).Some? && |Convert(log, pods, dir).value.rules| == 1
    ensures Convert(log, pods, dir).value.rules[0].https == [SpecHTTP(log.httpMethod, log.httpPath, false)]
  {
    hide Itoa, EndpointLabels, IsVM;
    var d := Draft(log, pods, dir).value;
    assert |d.rules| == 1;
    var r := d.rules[0];
    assert r.labels != map[] by { assert r.labels == map[] ==> NAMESPACE_LABEL !in r.labels; }
    assert ValidRule(dir, r);
  }

  // ================================================================ who a log is about

  /** A reserved label names the entity, with or without its prefix. */
  predicate Names(labels: seq<string>, entity: string) {
    entity in labels || "reserved:" + entity in labels
  }

  lemma NamesReserved(labels: seq<string>, entity: string)
    requires entity in {"kube-apiserver", "world", "remote-node", "host"}
    ensures Reserves(labels, entity) <==> Names(labels, entity)
  {
    assert |"reserved:"| == 9;
    assert "kube-apiserver"[0] == 'k' && "world"[0] == 'w' && "remote-node"[2] == 'm' && "host"[0] == 'h';
    if l :| l in labels && WithoutReserved(l) == entity {
      if "reserved:" <= l { assert l == "reserved:" + l[9..]; }
    }
    if entity in labels { assert WithoutReserved(entity) == entity; }
    if "reserved:" + entity in labels {
      assert ("reserved:" + entity)[9..] == entity;
      assert WithoutReserved("reserved:" + entity) == entity;
    }
  }

  /** The entity of reserved labels: the most specific that they name. */
  lemma EntityOrder(labels: seq<string>)
    ensures EntityOf(labels) ==
      if Names(labels, "kube-apiserver") then "kube-apiserver" else if Names(labels, "world") then "world"
      else if Names(labels, "remote-node") then "remote-node" else if Names(labels, "host") then "host" else ""
  {
    NamesReserved(labels, "kube-apiserver");
    NamesReserved(labels, "world");
    NamesReserved(labels, "remote-node");
    NamesReserved(labels, "host");
    hide Reserves, Names;
  }

  /** A policy is for hosts exactly when the pod on its own side, the source of an egress and the destination of
      an ingress log, carries the reserved label of hosts. */
  lemma HostKind(log: Log, pods: seq<Pod>, dir: Dir)
    requires Convert(log, pods, dir).Some?
    ensures var pod := if dir == EgressDir then log.srcPodName else log.dstPodName;
      Convert(log, pods, dir).value.kind ==
        if pod != "" && "reserved:host" in LabelsFromPod(pod, pods) then "KnoxHostNetworkPolicy"
        else "KnoxNetworkPolicy"
  {
    hide Itoa, EndpointLabels, EntityOf, LabelsFromPod, ProtocolName;
  }

  /** The first pod of the name, whatever its namespace. */
  lemma {:induction false} LabelsOfFirstPod(pods: seq<Pod>, name: string, i: nat)
    requires i < |pods| && pods[i].podName == name && forall k :: 0 <= k < i ==> pods[k].podName != name
    ensures LabelsFromPod(name, pods) == pods[i].labels
    decreases i
  {
    if i > 0 { LabelsOfFirstPod(pods[1..], name, i - 1); }
  }

  /** The label is exactly this key and value, with one equals sign between them. */
  predicate Pair(text: string, k: string, v: string) {
    text == k + "=" + v && '=' !in k && '=' !in v
  }

  lemma PairAt(text: string, k: string, v: string)
    requires Pair(text, k, v)
    ensures EqualsAt(text) == |k| < |text| && text[..|k|] == k && text[|k| + 1..] == v
  {
    assert text[|k|] == '=' && forall j :: 0 <= j < |k| ==> text[j] == k[j];
  }

  lemma PairThere(text: string, i: nat, k: string, v: string)
    requires i < |text| && text[i] == '=' && k == text[..i] && v == text[i + 1..]
    requires (forall j :: 0 <= j < i ==> text[j] != '=') && '=' !in v
    ensures Pair(text, k, v)
  {
    assert text == k + "=" + v by {
      assert [text[i]] == "=";
      assert text == k + [text[i]] + v;
    }
  }

  /** The last label that is a pair with the key, and its value. */
  ghost predicate LastIs(labels: seq<string>, k: string, v: string, i: int) {
    0 <= i < |labels| && Pair(labels[i], k, v) && forall j, u :: i < j < |labels| ==> !Pair(labels[j], k, u)
  }

  ghost predicate HasPair(labels: seq<string>, k: string, v: string) {
    exists i :: LastIs(labels, k, v, i)
  }

  lemma LastPair(labels: seq<string>, k: string, v: string)
    requires labels != []
    ensures var last := |labels| - 1;
      HasPair(labels, k, v) <==>
        Pair(labels[last], k, v) || ((forall u :: !Pair(labels[last], k, u)) && HasPair(labels[..last], k, v))
  {
    var last := |labels| - 1;
    hide Pair;
    if Pair(labels[last], k, v) { assert LastIs(labels, k, v, last); }
    if i :| LastIs(labels[..last], k, v, i) {
      if forall u :: !Pair(labels[last], k, u) { assert LastIs(labels, k, v, i); }
    }
    if i :| LastIs(labels, k, v, i) {
      if i < last { assert LastIs(labels[..last], k, v, i); }
    }
  }

  lemma MapStep(before: LabelMap, l: string, k: string, v: string)
    ensures var i := EqualsAt(l);
      var after := if i < |l| && '=' !in l[i + 1..] then before[l[..i] := l[i + 1..]] else before;
      (k in after && after[k] == v) <==>
        Pair(l, k, v) || ((forall u :: !Pair(l, k, u)) && k in before && before[k] == v)
  {
    var i := EqualsAt(l);
    if i < |l| && '=' !in l[i + 1..] {
      PairThere(l, i, l[..i], l[i + 1..]);
      forall x, u | Pair(l, x, u) ensures x == l[..i] && u == l[i + 1..] { PairAt(l, x, u); }
    } else {
      forall x, u ensures !Pair(l, x, u) {
        if Pair(l, x, u) { PairAt(l, x, u); }
      }
    }
    hide Pair;
  }

  /** A key has the value of the last label that is a pair with it. */
  lemma {:induction false} LabelMapMembers(labels: seq<string>, k: string, v: string)
    ensures (k in LabelMapOf(labels) && LabelMapOf(labels)[k] == v) <==> HasPair(labels, k, v)
    decreases |labels|
  {
    if labels != [] {
      var last := |labels| - 1;
      LabelMapMembers(labels[..last], k, v);
      LastPair(labels, k, v);
      MapStep(LabelMapOf(labels[..last]), labels[last], k, v);
      hide Pair, HasPair, EqualsAt;
    }
  }

  // ================================================================ which logs convert

  /** Between pods the policy selects, seen from egress, the destination, and from ingress the source; elsewhere
      the pod of the log. */
  function SelectedPod(log: Log, dir: Dir): string {
    if (log.srcPodName != "" && log.dstPodName != "" && dir == EgressDir)
       || (log.srcPodName == "" && log.srcReservedLabels != []) then log.dstPodName
    else log.srcPodName
  }

  predicate NamesSome(labels: seq<string>) {
    Names(labels, "kube-apiserver") || Names(labels, "world") || Names(labels, "remote-node") || Names(labels, "host")
  }

  /** The log has a peer for the direction: the other pod with a label, or, from a reserved source only for
      ingress and towards a reserved destination only for egress, an entity, or the address in the direction
      that the log names. */
  predicate HasPeer(log: Log, pods: seq<Pod>, dir: Dir) {
    if log.srcPodName != "" && log.dstPodName != "" then
      || EndpointLabels(if dir == EgressDir then log.srcPodName else log.dstPodName, pods) != map[]
      || log.srcNamespace != log.dstNamespace
    else if log.srcPodName == "" && log.srcReservedLabels != [] then
      dir == IngressDir && NamesSome(log.srcReservedLabels)
    else if log.dstPodName != "" then false
    else if log.dstReservedLabels != [] then dir == EgressDir && NamesSome(log.dstReservedLabels)
    else log.direction == if dir == EgressDir then "EGRESS" else "INGRESS"
  }

  /** A log converts exactly when it has a peer, the selected pod has a label, and a request, unless it goes to
      an address, goes over TCP. */
  lemma ConvertsExactly(log: Log, pods: seq<Pod>, dir: Dir)
    ensures Convert(log, pods, dir).Some? <==>
      && HasPeer(log, pods, dir) && EndpointLabels(SelectedPod(log, dir), pods) != map[]
      && (log.isHTTP && !NamesAddress(log) ==> log.protocol == 6)
    ensures Convert(log, pods, dir).Some? ==>
      Convert(log, pods, dir).value.selector == EndpointLabels(SelectedPod(log, dir), pods)
  {
    EntityOrder(log.srcReservedLabels);
    EntityOrder(log.dstReservedLabels);
    DraftExactly(log, pods, dir);
    if Draft(log, pods, dir).Some? {
      DraftIsValid(log, pods, dir);
    }
    hide Itoa, EndpointLabels, EntityOf, IsVM, Draft, IsValidPolicy, Names;
  }

  lemma DraftExactly(log: Log, pods: seq<Pod>, dir: Dir)
    ensures HasPeer(log, pods, dir) ==> Draft(log, pods, dir).Some?
    ensures Draft(log, pods, dir).Some? && !HasPeer(log, pods, dir) ==> log.srcPodName != "" && log.dstPodName != ""
    ensures Draft(log, pods, dir).Some? ==>
      Draft(log, pods, dir).value.selector == EndpointLabels(SelectedPod(log, dir), pods)
  {
    EntityOrder(log.srcReservedLabels);
    EntityOrder(log.dstReservedLabels);
    hide Itoa, EndpointLabels, EntityOf, IsVM, Names, ProtocolName;
  }

  lemma DraftIsValid(log: Log, pods: seq<Pod>, dir: Dir)
    requires Draft(log, pods, dir).Some?
    ensures IsValidPolicy(Draft(log, pods, dir).value) <==>
      && HasPeer(log, pods, dir) && EndpointLabels(SelectedPod(log, dir), pods) != map[]
      && (log.isHTTP && !NamesAddress(log) ==> log.protocol == 6)
  {
    DraftExactly(log, pods, dir);
    hide Itoa, EndpointLabels, EntityOf, IsVM, Names;
    var d := Draft(log, pods, dir).value;
    assert |d.rules| == 1;
    var r := d.rules[0];
    assert IsValidPolicy(d) <==> d.selector != map[] && ValidRule(d.dir, r);
    if log.srcPodName != "" && log.dstPodName != "" {
      var peer := EndpointLabels(if dir == EgressDir then log.srcPodName else log.dstPodName, pods);
      assert log.srcNamespace != log.dstNamespace ==> r.labels != map[] by {
        assert r.labels == map[] ==> NAMESPACE_LABEL !in r.labels;
      }
    }
  }

  /** The peer that a log converts to: the labels of the other pod, with its namespace if that is another one;
      the domain name of an egress to the world, if there is one; the entity of the reserved labels. */
  lemma ConvertedPeer(log: Log, pods: seq<Pod>, dir: Dir)
    requires Convert(log, pods, dir).Some? && |Convert(log, pods, dir).value.rules| == 1
    ensures var r := Convert(log, pods, dir).value.rules[0];
      if log.srcPodName != "" && log.dstPodName != "" then
        var pod := if dir == EgressDir then log.srcPodName else log.dstPodName;
        var namespace := if dir == EgressDir then log.srcNamespace else log.dstNamespace;
        r.labels == if log.srcNamespace == log.dstNamespace then EndpointLabels(pod, pods)
                    else EndpointLabels(pod, pods)["io.kubernetes.pod.namespace" := namespace]
      else if NamesAddress(log) then ForAddress(r)
      else
        var entity := EntityOf(if dir == EgressDir then log.dstReservedLabels else log.srcReservedLabels);
        if dir == EgressDir && entity == "world" && log.dnsQuery != "" then r.fqdns == [[log.dnsQuery]]
        else r.entities == [entity]
  {
    hide Itoa, EndpointLabels, EntityOf, IsVM, ProtocolName;
    var d := Draft(log, pods, dir).value;
    assert |d.rules| == 1 && Convert(log, pods, dir).value.rules == d.rules;
  }

  // ================================================================ one rule for each grant

  /** What a rule grants, apart from HTTP requests: its peer and its port or ICMP type. */
  function Grant(r: Rule): Rule {
    r.(https := [])
  }

  /** Exactly one labelled endpoint, entity or domain name, and one port or ICMP type. */
  predicate OneGrant(r: Rule) {
    && r.cidrs == [] && |r.ports| + |r.icmps| == 1
    && ((r.labels != map[] && r.entities == [] && r.fqdns == [])
        || (r.labels == map[] && |r.entities| == 1 && r.fqdns == [])
        || (r.labels == map[] && r.entities == [] && |r.fqdns| == 1 && |r.fqdns[0]| == 1))
  }

  predicate ForAddress(r: Rule) {
    r.cidrs == [SpecCIDR(["0.0.0.0/32"], [])] && r.labels == map[] && r.entities == [] && r.fqdns == []
  }

  /** A log converts to one grant, or to a rule for an address. */
  lemma ConvertedIsGrant(log: Log, pods: seq<Pod>, dir: Dir)
    requires Convert(log, pods, dir).Some?
    ensures |Convert(log, pods, dir).value.rules| == 1
    ensures var r := Convert(log, pods, dir).value.rules[0]; if NamesAddress(log) then ForAddress(r) else OneGrant(r)
  {
    hide Itoa, EndpointLabels, EntityOf, IsVM, ProtocolName;
    var d := Draft(log, pods, dir).value;
    assert |d.rules| == 1 && Convert(log, pods, dir).value.rules == d.rules;
    assert ValidRule(dir, d.rules[0]);
  }

  lemma GrantIsReadable(r: Rule)
    requires OneGrant(r)
    ensures Readable(r) && PeerOf(r) != Unmatched
  {
  }

  /** Grants with the same key are the same. */
  lemma SameKeySameGrant(a: Rule, b: Rule)
    requires OneGrant(a) && OneGrant(b) && Readable(a) && Readable(b) && PeerOf(a) == PeerOf(b) && L4Of(a) == L4Of(b)
    ensures Grant(a) == Grant(b)
  {
    assert a.entities == b.entities && a.fqdns == b.fqdns by {
      if a.entities != [] { assert a.entities == [a.entities[0]] && b.entities == [b.entities[0]]; }
      if a.fqdns != [] {
        assert a.fqdns[0] == [a.fqdns[0][0]] && b.fqdns[0] == [b.fqdns[0][0]];
        assert a.fqdns == [a.fqdns[0]] && b.fqdns == [b.fqdns[0]];
      }
    }
    assert a.ports == b.ports && a.icmps == b.icmps by {
      if a.icmps != [] {
        assert a.icmps == [a.icmps[0]] && b.icmps == [b.icmps[0]];
      } else {
        assert a.ports == [a.ports[0]] && b.ports == [b.ports[0]];
      }
    }
  }

  /** Some rule of the list has this grant. */
  ghost predicate Granted(rules: seq<Rule>, g: Rule) {
    exists i :: 0 <= i < |rules| && Grant(rules[i]) == g
  }

  /** Merging makes up no grant. */
  lemma {:induction false} MergedComeFrom(rules: seq<Rule>, more: seq<Rule>, g: Rule)
    requires AllReadable(rules) && AllReadable(more) && Granted(WithRules(rules, more), g)
    ensures Granted(rules, g) || Granted(more, g)
    decreases |more|
  {
    if more != [] {
      var init, r := more[..|more| - 1], more[|more| - 1];
      var before := WithRules(rules, init);
      RulesStay(before, r);
      var i :| 0 <= i < |WithRules(rules, more)| && Grant(WithRules(rules, more)[i]) == g;
      hide WithRule, WithRules, Readable, OneKind;
      if i < |before| {
        assert SameButHttp(WithRule(before, r)[i], before[i]);
        assert Granted(before, g);
        MergedComeFrom(rules, init, g);
        if j :| 0 <= j < |init| && Grant(init[j]) == g { assert Grant(more[j]) == g; }
      } else {
        assert Grant(more[|more| - 1]) == g;
      }
    }
  }

  lemma {:induction false} RulesOfGranted(policies: seq<Policy>, g: Rule)
    ensures Granted(RulesOf(policies), g) <==> exists i :: 0 <= i < |policies| && Granted(policies[i].rules, g)
    decreases |policies|
  {
    if policies != [] {
      var last := |policies| - 1;
      RulesOfGranted(policies[..last], g);
      GrantedInBoth(RulesOf(policies[..last]), policies[last].rules, g);
      hide Granted;
      assert forall i :: 0 <= i < last ==> policies[..last][i] == policies[i];
    }
  }

  lemma GrantedInBoth(a: seq<Rule>, b: seq<Rule>, g: Rule)
    ensures Granted(a + b, g) <==> Granted(a, g) || Granted(b, g)
  {
    var all := a + b;
    if i :| 0 <= i < |a| && Grant(a[i]) == g { assert Grant(all[i]) == g; }
    if i :| 0 <= i < |b| && Grant(b[i]) == g { assert Grant(all[|a| + i]) == g; }
    if i :| 0 <= i < |all| && Grant(all[i]) == g {
      if i < |a| { assert Grant(a[i]) == g; } else { assert Grant(b[i - |a|]) == g; }
    }
  }

  /** Some log converts to a policy of the selector with the grant. */
  ghost predicate LogGrants(logs: seq<Log>, pods: seq<Pod>, dir: Dir, s: Selector, g: Rule) {
    exists i :: 0 <= i < |logs| && GrantedBy(logs[i], pods, dir, s, g)
  }

  ghost predicate GrantedBy(log: Log, pods: seq<Pod>, dir: Dir, s: Selector, g: Rule) {
    var c := Convert(log, pods, dir);
    c.Some? && Selector(c.value.kind, c.value.selector) == s && |c.value.rules| == 1 && Grant(c.value.rules[0]) == g
  }

  lemma PolicyGrants(logs: seq<Log>, pods: seq<Pod>, dir: Dir, s: Selector, g: Rule)
    ensures LogGrants(logs, pods, dir, s, g) <==>
      exists i :: 0 <= i < |PoliciesFor(logs, pods, dir, s)| && Granted(PoliciesFor(logs, pods, dir, s)[i].rules, g)
  {
    var ps := PoliciesFor(logs, pods, dir, s);
    hide Convert, PoliciesFor;
    if i :| 0 <= i < |ps| && Granted(ps[i].rules, g) {
      PoliciesForMembers(logs, pods, dir, s, ps[i]);
      var k :| 0 <= k < |logs| && Gives(logs[k], pods, dir, ps[i]);
      ConvertedIsProper(logs[k], pods, dir);
      assert GrantedBy(logs[k], pods, dir, s, g);
    }
    if k :| 0 <= k < |logs| && GrantedBy(logs[k], pods, dir, s, g) {
      var q := Convert(logs[k], pods, dir).value;
      assert Gives(logs[k], pods, dir, q);
      PoliciesForMembers(logs, pods, dir, s, q);
      var i :| 0 <= i < |ps| && ps[i] == q;
      assert Grant(ps[i].rules[0]) == g;
    }
  }

  /** Nothing is granted without a log. */
  lemma GrantsAreLogged(logs: seq<Log>, pods: seq<Pod>, dir: Dir, s: Selector, g: Rule)
    requires PoliciesFor(logs, pods, dir, s) != [] && Granted(MergedFor(logs, pods, dir, s).rules, g)
    ensures LogGrants(logs, pods, dir, s, g)
  {
    var ps := PoliciesFor(logs, pods, dir, s);
    PoliciesForProper(logs, pods, dir, s);
    RulesOfReadable(ps[1..]);
    assert Proper(ps[0], dir);
    hide Granted, PoliciesFor, Proper;
    MergedComeFrom(ps[0].rules, RulesOf(ps[1..]), g);
    RulesOfGranted(ps[1..], g);
    PolicyGrants(logs, pods, dir, s, g);
    if Granted(ps[0].rules, g) {
      assert 0 < |ps| && Granted(ps[0].rules, g);
    } else {
      var i :| 0 <= i < |ps[1..]| && Granted(ps[1..][i].rules, g);
      assert Granted(ps[i + 1].rules, g);
    }
  }

  /** The grants of a discovered policy are exact, field by field: it has exactly the grants that a log of its
      selector converts to, each in one rule. */
  lemma DiscoveredGrantsAreExact(logs: seq<Log>, pods: seq<Pod>, dir: Dir, s: Selector, g: Rule)
    requires PoliciesFor(logs, pods, dir, s) != [] && OneGrant(g) && g.https == []
    ensures var rules := MergedFor(logs, pods, dir, s).rules;
      && (Granted(rules, g) <==> LogGrants(logs, pods, dir, s, g))
      && forall i, j :: 0 <= i < j < |rules| && Grant(rules[i]) == g ==> Grant(rules[j]) != g
  {
    var rules := MergedFor(logs, pods, dir, s).rules;
    GrantIsReadable(g);
    var p, l := PeerOf(g), L4Of(g);
    DiscoveredKeysAreExact(logs, pods, dir, s, p, l);
    if Granted(rules, g) { GrantsAreLogged(logs, pods, dir, s, g); }
    if LogGrants(logs, pods, dir, s, g) {
      LoggedKey(logs, pods, dir, s, g);
      KeyIsGranted(logs, pods, dir, s, g, rules);
    }
    GrantsOnce(rules, g);
  }

  lemma GrantKey(a: Rule, g: Rule)
    requires OneGrant(g) && Readable(g) && Readable(a) && Grant(a) == g
    ensures PeerOf(a) == PeerOf(g) && L4Of(a) == L4Of(g)
  {
    assert a.labels == g.labels && a.entities == g.entities && a.fqdns == g.fqdns;
    assert a.ports == g.ports && a.icmps == g.icmps;
  }

  lemma GrantsOnce(rules: seq<Rule>, g: Rule)
    requires AllReadable(rules) && UniqueKeys(rules) && OneGrant(g) && Readable(g)
    ensures forall i, j :: 0 <= i < j < |rules| && Grant(rules[i]) == g ==> Grant(rules[j]) != g
  {
    GrantIsReadable(g);
    forall i, j | 0 <= i < j < |rules| && Grant(rules[i]) == g ensures Grant(rules[j]) != g {
      if Grant(rules[j]) == g {
        GrantKey(rules[i], g);
        GrantKey(rules[j], g);
      }
    }
  }

  lemma LoggedKey(logs: seq<Log>, pods: seq<Pod>, dir: Dir, s: Selector, g: Rule)
    requires LogGrants(logs, pods, dir, s, g) && OneGrant(g) && Readable(g)
    ensures Logged(logs, pods, dir, s, PeerOf(g), L4Of(g))
  {
    var k :| 0 <= k < |logs| && GrantedBy(logs[k], pods, dir, s, g);
    ConvertedIsProper(logs[k], pods, dir);
    hide Convert;
    var c := Convert(logs[k], pods, dir).value;
    GrantKey(c.rules[0], g);
    assert HasKey(c.rules, PeerOf(g), L4Of(g));
    assert LoggedBy(logs[k], pods, dir, s, PeerOf(g), L4Of(g));
  }

  lemma KeyIsGranted(logs: seq<Log>, pods: seq<Pod>, dir: Dir, s: Selector, g: Rule, rules: seq<Rule>)
    requires PoliciesFor(logs, pods, dir, s) != [] && rules == MergedFor(logs, pods, dir, s).rules
    requires OneGrant(g) && Readable(g) && g.https == [] && AllReadable(rules) && HasKey(rules, PeerOf(g), L4Of(g))
    ensures Granted(rules, g)
  {
    GrantIsReadable(g);
    var i :| 0 <= i < |rules| && PeerOf(rules[i]) == PeerOf(g) && L4Of(rules[i]) == L4Of(g);
    var x := Grant(rules[i]);
    assert Granted(rules, x);
    GrantsAreLogged(logs, pods, dir, s, x);
    var k :| 0 <= k < |logs| && GrantedBy(logs[k], pods, dir, s, x);
    ConvertedIsGrant(logs[k], pods, dir);
    hide Convert, MergedFor, PoliciesFor;
    MatchedIsGrant(Convert(logs[k], pods, dir).value.rules[0], rules[i]);
    SameKeySameGrant(rules[i], g);
  }

  lemma MatchedIsGrant(r: Rule, x: Rule)
    requires (ForAddress(r) || OneGrant(r)) && Grant(r) == Grant(x) && Readable(x) && PeerOf(x) != Unmatched
    ensures OneGrant(x)
  {
    var a, b := Grant(r), Grant(x);
    assert a.labels == b.labels && a.entities == b.entities && a.fqdns == b.fqdns && a.cidrs == b.cidrs;
    assert a.ports == b.ports && a.icmps == b.icmps;
  }
}
