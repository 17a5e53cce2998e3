/** Network policies discovered from logs: one rule for each log, merged by selector, peer and port. */
module NetMerge {
  import opened NetPolicies

  datatype Dir = IngressDir | EgressDir

  /** A rule of either direction; ingress rules have no domain names. */
  datatype Rule = Rule(labels: LabelMap, entities: seq<string>, fqdns: seq<seq<string>>, cidrs: seq<SpecCIDR>,
                       ports: seq<SpecPort>, icmps: seq<SpecICMP>, https: seq<SpecHTTP>)

  datatype Policy = Policy(dir: Dir, kind: string, selector: LabelMap, namespace: string, containerName: string,
                           rules: seq<Rule>)

  const NO_RULE := Rule(map[], [], [], [], [], [], [])

  // ================================================================ keys

  datatype PeerKey = ByLabels(labels: LabelMap) | ByEntity(entity: string) | ByFqdn(name: string) | Unmatched

  datatype L4Key = ByPort(port: SpecPort) | ByIcmp(icmp: SpecICMP)

  /** Lists read at their first element have one. */
  predicate Readable(r: Rule) {
    (r.ports != [] || r.icmps != []) && (r.fqdns != [] ==> r.fqdns[0] != [])
  }

  /** At most one kind of peer that is matched by peer. */
  predicate OneKind(r: Rule) {
    && (r.labels != map[] ==> r.entities == [] && r.fqdns == [])
    && (r.entities != [] ==> r.fqdns == [])
  }

  function PeerOf(r: Rule): PeerKey
    requires Readable(r)
  {
    if r.labels != map[] then ByLabels(r.labels)
    else if r.entities != [] then ByEntity(r.entities[0])
    else if r.fqdns != [] then ByFqdn(r.fqdns[0][0])
    else Unmatched
  }

  function L4Of(r: Rule): L4Key
    requires Readable(r)
  {
    if r.icmps != [] then ByIcmp(r.icmps[0]) else ByPort(r.ports[0])
  }

  predicate AllReadable(rules: seq<Rule>) {
    forall i :: 0 <= i < |rules| ==> Readable(rules[i]) && OneKind(rules[i])
  }

  ghost predicate HasKey(rules: seq<Rule>, p: PeerKey, l: L4Key)
    requires AllReadable(rules)
  {
    exists i :: 0 <= i < |rules| && PeerOf(rules[i]) == p && L4Of(rules[i]) == l
  }

  ghost predicate UniqueKeys(rules: seq<Rule>)
    requires AllReadable(rules)
  {
    forall i, j :: 0 <= i < j < |rules| && PeerOf(rules[i]) == PeerOf(rules[j]) != Unmatched ==>
      L4Of(rules[i]) != L4Of(rules[j])
  }

  // ================================================================ merging one rule

  function AddNew(exist: seq<SpecHTTP>, more: seq<SpecHTTP>): seq<SpecHTTP> {
    if more == [] then []
    else
      var h := more[|more| - 1];
      AddNew(exist, more[..|more| - 1]) + if h in exist then [] else [h]
  }

  /** Whether the rules are for the same port or ICMP type, and the HTTP rules to keep with the existing
      one: none if they are not. */
  method MergeHttpRules(exist: Rule, newer: Rule) returns (matched: bool, https: seq<SpecHTTP>)
    requires Readable(exist) && Readable(newer)
    ensures matched <==> L4Of(exist) == L4Of(newer)
    ensures https == if matched && exist.icmps == [] then exist.https + AddNew(exist.https, newer.https) else []
  {
    var existIsICMP, newIsICMP := |exist.icmps| > 0, |newer.icmps| > 0;
    if existIsICMP && !newIsICMP {
      return false, [];
    } else if !existIsICMP && newIsICMP {
      return false, [];
    } else if existIsICMP && newIsICMP {
      if exist.icmps[0] == newer.icmps[0] {
        return true, [];
      }
      return false, [];
    }
    if exist.ports[0] == newer.ports[0] {
      var mergedHttpRule := exist.https;
      for i := 0 to |newer.https|
        invariant mergedHttpRule == exist.https + AddNew(exist.https, newer.https[..i])
      {
        assert newer.https[..i + 1][..i] == newer.https[..i];
        if newer.https[i] !in exist.https {
          mergedHttpRule := mergedHttpRule + [newer.https[i]];
        }
      }
      assert newer.https[..|newer.https|] == newer.https;
      return true, mergedHttpRule;
    }
    return false, [];
  }

  function Kept(exist: Rule, newer: Rule): seq<SpecHTTP>
    requires Readable(exist) && Readable(newer)
  {
    if L4Of(exist) == L4Of(newer) && exist.icmps == [] then exist.https + AddNew(exist.https, newer.https) else []
  }

  /** The existing rules after looking for one with the same peer and port, and whether there is one. Rules
      of the peer for another port, before the one that matches, lose their HTTP rules. */
  function Absorb(rules: seq<Rule>, r: Rule): (seq<Rule>, bool)
    requires AllReadable(rules) && Readable(r)
    decreases |rules|
  {
    if rules == [] then ([], false)
    else if PeerOf(rules[0]) != PeerOf(r) then
      var rest := Absorb(rules[1..], r);
      ([rules[0]] + rest.0, rest.1)
    else if L4Of(rules[0]) == L4Of(r) then ([rules[0].(https := Kept(rules[0], r))] + rules[1..], true)
    else
      var rest := Absorb(rules[1..], r);
      ([rules[0].(https := [])] + rest.0, rest.1)
  }

  predicate PortTaken(rules: seq<Rule>, port: SpecPort) {
    exists i :: 0 <= i < |rules| && rules[i].ports != [] && rules[i].ports[0] == port
  }

  /** What merging one rule makes of the existing rules. */
  function WithRule(rules: seq<Rule>, r: Rule): seq<Rule>
    requires AllReadable(rules) && Readable(r)
  {
    if PeerOf(r) != Unmatched then
      var a := Absorb(rules, r);
      if a.1 then a.0 else a.0 + [r]
    else if r.cidrs != [] && r.ports != [] && PortTaken(rules, r.ports[0]) then rules
    else rules + [r]
  }

  /** Rules that differ at most in their HTTP rules. */
  predicate SameButHttp(a: Rule, b: Rule) {
    a.(https := []) == b.(https := [])
  }

  lemma {:induction false} AbsorbKeeps(rules: seq<Rule>, r: Rule)
    requires AllReadable(rules) && Readable(r)
    ensures var a := Absorb(rules, r);
      |a.0| == |rules| && forall i :: 0 <= i < |rules| ==> SameButHttp(a.0[i], rules[i])
    decreases |rules|
  {
    if rules != [] {
      var rest := rules[1..];
      AbsorbKeeps(rest, r);
      forall i | 0 <= i < |rules| ensures SameButHttp(Absorb(rules, r).0[i], rules[i]) {
        if i > 0 { assert rules[i] == rest[i - 1]; }
      }
    }
  }

  lemma {:induction false} AbsorbFinds(rules: seq<Rule>, r: Rule)
    requires AllReadable(rules) && Readable(r)
    ensures Absorb(rules, r).1 <==> HasKey(rules, PeerOf(r), L4Of(r))
    decreases |rules|
  {
    if rules != [] {
      AbsorbFinds(rules[1..], r);
      KeyInFirst(rules, PeerOf(r), L4Of(r));
      hide HasKey;
    }
  }

  lemma KeyInFirst(rules: seq<Rule>, p: PeerKey, l: L4Key)
    requires AllReadable(rules) && rules != []
    ensures HasKey(rules, p, l) <==> (PeerOf(rules[0]) == p && L4Of(rules[0]) == l) || HasKey(rules[1..], p, l)
  {
    var rest := rules[1..];
    if HasKey(rest, p, l) {
      var i :| 0 <= i < |rest| && PeerOf(rest[i]) == p && L4Of(rest[i]) == l;
      assert rules[i + 1] == rest[i];
    }
    if HasKey(rules, p, l) && !(PeerOf(rules[0]) == p && L4Of(rules[0]) == l) {
      var i :| 0 <= i < |rules| && PeerOf(rules[i]) == p && L4Of(rules[i]) == l;
      assert rest[i - 1] == rules[i];
    }
  }

  /** Merging never drops a rule: the existing ones stay in place, up to HTTP rules. */
  lemma RulesStay(rules: seq<Rule>, r: Rule)
    requires AllReadable(rules) && Readable(r) && OneKind(r)
    ensures |rules| <= |WithRule(rules, r)| <= |rules| + 1
    ensures forall i :: 0 <= i < |rules| ==> SameButHttp(WithRule(rules, r)[i], rules[i])
    ensures |WithRule(rules, r)| > |rules| ==> WithRule(rules, r)[|rules|] == r
    ensures AllReadable(WithRule(rules, r))
  {
    AbsorbKeeps(rules, r);
    var out := WithRule(rules, r);
    forall i | 0 <= i < |out| ensures Readable(out[i]) && OneKind(out[i]) {
      if i < |rules| { assert SameButHttp(out[i], rules[i]); SameReads(out[i], rules[i]); }
    }
  }

  lemma SameReads(a: Rule, b: Rule)
    requires SameButHttp(a, b)
    ensures Readable(a) == Readable(b) && OneKind(a) == OneKind(b)
    ensures Readable(a) ==> PeerOf(a) == PeerOf(b) && L4Of(a) == L4Of(b)
    ensures a.ports == b.ports && a.icmps == b.icmps && a.labels == b.labels && a.entities == b.entities
    ensures a.fqdns == b.fqdns && a.cidrs == b.cidrs
  {
    var x, y := a.(https := []), b.(https := []);
    assert x.ports == y.ports && x.icmps == y.icmps && x.labels == y.labels && x.entities == y.entities;
    assert x.fqdns == y.fqdns && x.cidrs == y.cidrs;
  }

  lemma KeysStay(rules: seq<Rule>, r: Rule)
    requires AllReadable(rules) && Readable(r) && OneKind(r)
    ensures AllReadable(WithRule(rules, r)) && |WithRule(rules, r)| >= |rules|
    ensures forall i :: 0 <= i < |rules| ==>
      PeerOf(WithRule(rules, r)[i]) == PeerOf(rules[i]) && L4Of(WithRule(rules, r)[i]) == L4Of(rules[i])
  {
    RulesStay(rules, r);
    hide WithRule, SameButHttp;
    forall i | 0 <= i < |rules|
      ensures PeerOf(WithRule(rules, r)[i]) == PeerOf(rules[i]) && L4Of(WithRule(rules, r)[i]) == L4Of(rules[i])
    {
      SameReads(WithRule(rules, r)[i], rules[i]);
    }
  }

  lemma KeysTransfer(a: seq<Rule>, b: seq<Rule>, p: PeerKey, l: L4Key)
    requires AllReadable(a) && AllReadable(b) && |a| <= |b| <= |a| + 1
    requires forall i :: 0 <= i < |a| ==> PeerOf(b[i]) == PeerOf(a[i]) && L4Of(b[i]) == L4Of(a[i])
    ensures HasKey(b, p, l) <==>
      HasKey(a, p, l) || (|b| > |a| && PeerOf(b[|a|]) == p && L4Of(b[|a|]) == l)
  {
    hide PeerOf, L4Of;
    if HasKey(a, p, l) {
      var i :| 0 <= i < |a| && PeerOf(a[i]) == p && L4Of(a[i]) == l;
      assert PeerOf(b[i]) == p;
    }
    if HasKey(b, p, l) {
      var i :| 0 <= i < |b| && PeerOf(b[i]) == p && L4Of(b[i]) == l;
      if i < |a| { assert PeerOf(a[i]) == p; }
    }
  }

  lemma AppendsUnlessThere(rules: seq<Rule>, r: Rule)
    requires AllReadable(rules) && Readable(r) && OneKind(r)
    ensures PeerOf(r) != Unmatched ==>
      (|WithRule(rules, r)| == |rules| <==> HasKey(rules, PeerOf(r), L4Of(r)))
  {
    AbsorbKeeps(rules, r);
    AbsorbFinds(rules, r);
  }

  /** For peers matched as such, merging a rule adds exactly its key, if it is not there already. */
  lemma KeysAreExact(rules: seq<Rule>, r: Rule, p: PeerKey, l: L4Key)
    requires AllReadable(rules) && Readable(r) && OneKind(r) && p != Unmatched
    ensures AllReadable(WithRule(rules, r))
    ensures HasKey(WithRule(rules, r), p, l) <==> HasKey(rules, p, l) || (PeerOf(r) == p && L4Of(r) == l)
  {
    RulesStay(rules, r);
    KeysStay(rules, r);
    AppendsUnlessThere(rules, r);
    hide WithRule, PeerOf, L4Of, SameButHttp, Readable, OneKind, HasKey;
    KeysTransfer(rules, WithRule(rules, r), p, l);
  }

  /** Keys of matched peers stay unique. */
  lemma KeysStayUnique(rules: seq<Rule>, r: Rule)
    requires AllReadable(rules) && Readable(r) && OneKind(r) && UniqueKeys(rules)
    ensures AllReadable(WithRule(rules, r)) && UniqueKeys(WithRule(rules, r))
  {
    RulesStay(rules, r);
    AppendsUnlessThere(rules, r);
    KeysStay(rules, r);
    var out := WithRule(rules, r);
    forall i, j | 0 <= i < j < |out| && PeerOf(out[i]) == PeerOf(out[j]) != Unmatched
      ensures L4Of(out[i]) != L4Of(out[j])
    {
      if j == |rules| { assert !HasKey(rules, PeerOf(r), L4Of(r)); }
    }
  }

  /** The scan has dealt with the first i rules. */
  ghost predicate Scanned(rules: seq<Rule>, merged: seq<Rule>, newer: Rule, i: nat)
    requires AllReadable(rules) && Readable(newer) && i <= |rules| == |merged|
  {
    && merged[i..] == rules[i..]
    && merged[..i] + Absorb(rules[i..], newer).0 == Absorb(rules, newer).0
    && Absorb(rules[i..], newer).1 == Absorb(rules, newer).1
  }

  lemma UpdateAt(rules: seq<Rule>, merged: seq<Rule>, i: nat, x: Rule)
    requires i < |rules| == |merged| && merged[i..] == rules[i..]
    ensures rules[i..] == [rules[i]] + rules[i + 1..] && merged[i] == rules[i]
    ensures merged[i := x][..i + 1] == merged[..i] + [x] && merged[i := x][i + 1..] == rules[i + 1..]
    ensures merged[i := x] == merged[..i] + ([x] + rules[i + 1..])
  {
    assert merged[i] == merged[i..][0] == rules[i..][0];
    assert merged[i := x][i + 1..] == merged[i..][1..] == rules[i..][1..];
  }

  lemma AbsorbFirst(x: Rule, rest: seq<Rule>, newer: Rule)
    requires AllReadable([x] + rest) && AllReadable(rest) && Readable(x) && Readable(newer)
    ensures PeerOf(x) != PeerOf(newer) ==>
      Absorb([x] + rest, newer).0 == [x] + Absorb(rest, newer).0 && Absorb([x] + rest, newer).1 == Absorb(rest, newer).1
    ensures PeerOf(x) == PeerOf(newer) && L4Of(x) != L4Of(newer) ==>
      Absorb([x] + rest, newer).0 == [x.(https := [])] + Absorb(rest, newer).0
      && Absorb([x] + rest, newer).1 == Absorb(rest, newer).1
    ensures PeerOf(x) == PeerOf(newer) && L4Of(x) == L4Of(newer) ==>
      Absorb([x] + rest, newer).0 == [x.(https := Kept(x, newer))] + rest && Absorb([x] + rest, newer).1
  {
    assert ([x] + rest)[1..] == rest;
  }

  lemma Reassociate(a: seq<Rule>, x: Rule, b: seq<Rule>)
    ensures a + ([x] + b) == (a + [x]) + b
  {
  }

  lemma ScanStep(rules: seq<Rule>, merged: seq<Rule>, newer: Rule, i: nat)
    requires AllReadable(rules) && Readable(newer) && i < |rules| == |merged| && Scanned(rules, merged, newer, i)
    ensures PeerOf(rules[i]) != PeerOf(newer) ==> Scanned(rules, merged, newer, i + 1)
    ensures PeerOf(rules[i]) == PeerOf(newer) && L4Of(rules[i]) != L4Of(newer) ==>
      Scanned(rules, merged[i := rules[i].(https := [])], newer, i + 1)
    ensures PeerOf(rules[i]) == PeerOf(newer) && L4Of(rules[i]) == L4Of(newer) ==>
      merged[i := rules[i].(https := Kept(rules[i], newer))] == Absorb(rules, newer).0 && Absorb(rules, newer).1
  {
    var r, rest := rules[i], rules[i + 1..];
    var x := if PeerOf(r) != PeerOf(newer) then r
             else if L4Of(r) == L4Of(newer) then r.(https := Kept(r, newer)) else r.(https := []);
    UpdateAt(rules, merged, i, x);
    AbsorbFirst(r, rest, newer);
    Reassociate(merged[..i], x, Absorb(rest, newer).0);
    hide Kept, PeerOf, L4Of, Absorb, Readable, OneKind;
    if PeerOf(r) != PeerOf(newer) { assert merged[i := x] == merged; }
  }

  /** The scan for a rule of the same peer. */
  method AbsorbInPlace(rules: seq<Rule>, newer: Rule) returns (merged: seq<Rule>, matched: bool)
    requires AllReadable(rules) && Readable(newer) && PeerOf(newer) != Unmatched
    ensures merged == Absorb(rules, newer).0 && matched == Absorb(rules, newer).1
  {
    merged, matched := rules, false;
    assert Scanned(rules, merged, newer, 0) by { assert rules[0..] == rules; }
    for i := 0 to |rules|
      invariant |merged| == |rules| && !matched && Scanned(rules, merged, newer, i)
    {
      hide Scanned, Absorb;
      ScanStep(rules, merged, newer, i);
      var exist := rules[i];
      if PeerOf(exist) == PeerOf(newer) {
        var https;
        matched, https := MergeHttpRules(exist, newer);
        merged := merged[i := exist.(https := https)];
        if matched {
          return;
        }
      }
    }
    assert rules[|rules|..] == [] && merged[..|rules|] == merged;
  }

  method CheckIfPortExists(rules: seq<Rule>, port: SpecPort) returns (isExist: bool)
    ensures isExist <==> PortTaken(rules, port)
  {
    for i := 0 to |rules|
      invariant forall k :: 0 <= k < i ==> !(rules[k].ports != [] && rules[k].ports[0] == port)
    {
      if |rules[i].ports| == 0 {
        continue;
      }
      if rules[i].ports[0] == port {
        return true;
      }
    }
    return false;
  }

  /** Merges one rule into the rules of a policy. No list is read beyond its end. */
  method MergeRule(rules: seq<Rule>, newer: Rule) returns (merged: seq<Rule>)
    requires AllReadable(rules) && Readable(newer)
    ensures merged == WithRule(rules, newer)
  {
    merged := rules;
    var matched := false;
    if PeerOf(newer) != Unmatched {
      merged, matched := AbsorbInPlace(rules, newer);
    } else if |newer.cidrs| > 0 && |newer.ports| > 0 {
      matched := CheckIfPortExists(rules, newer.ports[0]);
    }
    if !matched {
      merged := merged + [newer];
    }
  }

  // ================================================================ merging policies

  function WithRules(rules: seq<Rule>, more: seq<Rule>): (r: seq<Rule>)
    requires AllReadable(rules) && AllReadable(more)
    ensures AllReadable(r)
    decreases |more|
  {
    if more == [] then rules
    else
      var init := WithRules(rules, more[..|more| - 1]);
      RulesStay(init, more[|more| - 1]);
      WithRule(init, more[|more| - 1])
  }

  /** The keys of a merged list are those of the existing and the merged rules, each once, and the
      existing rules stay in front. */
  lemma {:induction false} MergedKeysAreExact(rules: seq<Rule>, more: seq<Rule>, p: PeerKey, l: L4Key)
    requires AllReadable(rules) && AllReadable(more) && p != Unmatched
    ensures HasKey(WithRules(rules, more), p, l) <==> HasKey(rules, p, l) || HasKey(more, p, l)
    decreases |more|
  {
    if more != [] {
      var init, r := more[..|more| - 1], more[|more| - 1];
      MergedKeysAreExact(rules, init, p, l);
      KeysAreExact(WithRules(rules, init), r, p, l);
      assert more == init + [r];
      KeyOfLast(init, r, p, l);
    }
  }

  lemma KeyOfLast(init: seq<Rule>, r: Rule, p: PeerKey, l: L4Key)
    requires AllReadable(init) && Readable(r) && OneKind(r)
    ensures AllReadable(init + [r])
    ensures HasKey(init + [r], p, l) <==> HasKey(init, p, l) || (PeerOf(r) == p && L4Of(r) == l)
  {
    var all := init + [r];
    if HasKey(init, p, l) {
      var i :| 0 <= i < |init| && PeerOf(init[i]) == p && L4Of(init[i]) == l;
      assert all[i] == init[i];
    }
    assert all[|init|] == r;
  }

  lemma {:induction false} MergedKeysAreUnique(rules: seq<Rule>, more: seq<Rule>)
    requires AllReadable(rules) && AllReadable(more) && UniqueKeys(rules)
    ensures UniqueKeys(WithRules(rules, more))
    decreases |more|
  {
    if more != [] {
      MergedKeysAreUnique(rules, more[..|more| - 1]);
      KeysStayUnique(WithRules(rules, more[..|more| - 1]), more[|more| - 1]);
    }
  }

  lemma {:induction false} MergedRulesStay(rules: seq<Rule>, more: seq<Rule>)
    requires AllReadable(rules) && AllReadable(more)
    ensures |rules| <= |WithRules(rules, more)|
    ensures forall i :: 0 <= i < |rules| ==> SameButHttp(WithRules(rules, more)[i], rules[i])
    decreases |more|
  {
    if more != [] {
      var init := WithRules(rules, more[..|more| - 1]);
      MergedRulesStay(rules, more[..|more| - 1]);
      RulesStay(init, more[|more| - 1]);
      forall i | 0 <= i < |rules| ensures SameButHttp(WithRules(rules, more)[i], rules[i]) {
        assert SameButHttp(init[i], rules[i]);
      }
    }
  }

  function RulesOf(policies: seq<Policy>): seq<Rule> {
    if policies == [] then [] else RulesOf(policies[..|policies| - 1]) + policies[|policies| - 1].rules
  }

  ghost predicate AllPoliciesReadable(policies: seq<Policy>) {
    forall i :: 0 <= i < |policies| ==> AllReadable(policies[i].rules)
  }

  lemma {:induction false} RulesOfReadable(policies: seq<Policy>)
    requires AllPoliciesReadable(policies)
    ensures AllReadable(RulesOf(policies))
  {
    if policies != [] { RulesOfReadable(policies[..|policies| - 1]); }
  }

  lemma WithRulesStep(rules: seq<Rule>, more: seq<Rule>, r: Rule)
    requires AllReadable(rules) && AllReadable(more) && Readable(r) && OneKind(r)
    ensures AllReadable(more + [r]) && WithRules(rules, more + [r]) == WithRule(WithRules(rules, more), r)
  {
    assert (more + [r])[..|more|] == more;
  }

  /** Merges policies of one selector into the first. */
  method MergePolicies(exist: Policy, policies: seq<Policy>) returns (merged: Policy)
    requires AllReadable(exist.rules) && AllPoliciesReadable(policies)
    ensures AllReadable(RulesOf(policies)) && merged == exist.(rules := WithRules(exist.rules, RulesOf(policies)))
  {
    merged := exist;
    RulesOfReadable(policies);
    for i := 0 to |policies|
      invariant AllReadable(RulesOf(policies[..i]))
      invariant merged == exist.(rules := WithRules(exist.rules, RulesOf(policies[..i])))
    {
      assert policies[..i + 1][..i] == policies[..i];
      var rules := MergePolicyRules(exist.rules, merged.rules, policies[i].rules, RulesOf(policies[..i]));
      merged := merged.(rules := rules);
    }
    assert policies[..|policies|] == policies;
  }

  method MergePolicyRules(ghost start: seq<Rule>, rules: seq<Rule>, more: seq<Rule>, ghost before: seq<Rule>)
      returns (merged: seq<Rule>)
    requires AllReadable(start) && AllReadable(before) && AllReadable(more) && rules == WithRules(start, before)
    ensures AllReadable(before + more) && merged == WithRules(start, before + more)
  {
    hide WithRules, WithRule;
    merged := rules;
    assert before + more[..0] == before;
    for j := 0 to |more|
      invariant AllReadable(before + more[..j]) && merged == WithRules(start, before + more[..j])
    {
      assert before + more[..j + 1] == before + more[..j] + [more[j]];
      WithRulesStep(start, before + more[..j], more[j]);
      merged := MergeRule(merged, more[j]);
    }
    assert more[..|more|] == more;
  }

  // ================================================================ what becomes of address rules

  /** Some rule is for the address ranges and the port. */
  ghost predicate HasAddress(rules: seq<Rule>, cidrs: seq<SpecCIDR>, port: SpecPort) {
    exists i :: 0 <= i < |rules| && rules[i].cidrs == cidrs && rules[i].ports != [] && rules[i].ports[0] == port
  }

  /** A rule for address ranges is granted exactly when it was before, or no rule whatever is for its port. */
  lemma AddressKeptExactly(rules: seq<Rule>, r: Rule)
    requires AllReadable(rules) && Readable(r) && PeerOf(r) == Unmatched && r.cidrs != [] && r.ports != []
    ensures HasAddress(WithRule(rules, r), r.cidrs, r.ports[0]) <==>
            HasAddress(rules, r.cidrs, r.ports[0]) || !PortTaken(rules, r.ports[0])
  {
    var out := WithRule(rules, r);
    if out != rules {
      assert out == rules + [r] && out[|rules|] == r;
    }
  }

  /** A rule for an address is lost when an endpoint was granted the same port before. */
  lemma AddressIsLost(labels: LabelMap, port: SpecPort, cidr: SpecCIDR)
    requires labels != map[]
    ensures var x, y := NO_RULE.(labels := labels, ports := [port]), NO_RULE.(cidrs := [cidr], ports := [port]);
      AllReadable([x]) && Readable(y) && WithRule([x], y) == [x]
  {
    var x := NO_RULE.(labels := labels, ports := [port]);
    assert PortTaken([x], port) by { assert [x][0].ports[0] == port; }
  }

  // ================================================================ what becomes of HTTP rules

  /** The scan for the peer of r reaches rule i. */
  ghost predicate Reached(rules: seq<Rule>, i: nat, r: Rule)
    requires AllReadable(rules) && Readable(r) && i < |rules|
  {
    PeerOf(r) != Unmatched && PeerOf(rules[i]) == PeerOf(r) && !HasKey(rules[..i], PeerOf(r), L4Of(r))
  }

  /** Merging r into rule i keeps its HTTP rules and adds those of r. */
  ghost predicate Feeds(rules: seq<Rule>, i: nat, r: Rule)
    requires AllReadable(rules) && Readable(r) && i < |rules|
  {
    Reached(rules, i, r) && L4Of(rules[i]) == L4Of(r) && rules[i].icmps == []
  }

  /** Merging r takes all HTTP rules from rule i. */
  ghost predicate Wipes(rules: seq<Rule>, i: nat, r: Rule)
    requires AllReadable(rules) && Readable(r) && i < |rules|
  {
    Reached(rules, i, r) && !Feeds(rules, i, r)
  }

  lemma {:induction false} AbsorbHttpAt(rules: seq<Rule>, r: Rule, i: nat)
    requires AllReadable(rules) && Readable(r) && i < |rules|
    ensures |Absorb(rules, r).0| == |rules|
    ensures Absorb(rules, r).0[i].https ==
      if PeerOf(rules[i]) == PeerOf(r) && !HasKey(rules[..i], PeerOf(r), L4Of(r)) then Kept(rules[i], r)
      else rules[i].https
    decreases |rules|
  {
    assert !HasKey([], PeerOf(r), L4Of(r));
    hide Absorb, HasKey, Kept, PeerOf, L4Of, OneKind;
    AbsorbKeeps(rules, r);
    var rest := rules[1..];
    assert [rules[0]] + rest == rules;
    AbsorbFirst(rules[0], rest, r);
    AbsorbKeeps(rest, r);
    if i == 0 {
      assert rules[..0] == [];
    } else {
      AbsorbHttpAt(rest, r, i - 1);
      assert rest[..i - 1] == rules[..i][1..] && rules[..i][0] == rules[0] && rules[i] == rest[i - 1];
      KeyInFirst(rules[..i], PeerOf(r), L4Of(r));
    }
  }

  lemma HttpAfterRule(rules: seq<Rule>, r: Rule, i: nat)
    requires AllReadable(rules) && Readable(r) && i < |rules|
    ensures i < |WithRule(rules, r)|
    ensures WithRule(rules, r)[i].https == if Reached(rules, i, r) then Kept(rules[i], r) else rules[i].https
  {
    AbsorbHttpAt(rules, r, i);
  }

  lemma {:induction false} AddNewMembers(exist: seq<SpecHTTP>, more: seq<SpecHTTP>, h: SpecHTTP)
    ensures h in AddNew(exist, more) <==> h in more && h !in exist
  {
    if more != [] {
      AddNewMembers(exist, more[..|more| - 1], h);
      assert more == more[..|more| - 1] + [more[|more| - 1]];
    }
  }

  /** An HTTP rule after merging one rule: it was there or came with the merged one, and was not taken. */
  lemma HttpStep(rules: seq<Rule>, r: Rule, i: nat, h: SpecHTTP)
    requires AllReadable(rules) && Readable(r) && i < |rules|
    ensures i < |WithRule(rules, r)|
    ensures h in WithRule(rules, r)[i].https <==>
      !Wipes(rules, i, r) && (h in rules[i].https || (Feeds(rules, i, r) && h in r.https))
  {
    HttpAfterRule(rules, r, i);
    AddNewMembers(rules[i].https, r.https, h);
    hide WithRule, AddNew, HasKey;
  }

  /** An existing rule keeps its HTTP rules exactly when it has none, is for another peer, is not reached
      because an earlier rule has peer and port of the merged one, or has them itself and is for a port. */
  lemma HttpKeptExactly(rules: seq<Rule>, r: Rule, i: nat)
    requires AllReadable(rules) && Readable(r) && i < |rules|
    ensures i < |WithRule(rules, r)|
    ensures (forall h :: h in rules[i].https ==> h in WithRule(rules, r)[i].https) <==>
      || rules[i].https == []
      || PeerOf(r) == Unmatched
      || PeerOf(rules[i]) != PeerOf(r)
      || HasKey(rules[..i], PeerOf(r), L4Of(r))
      || (L4Of(rules[i]) == L4Of(r) && rules[i].icmps == [])
  {
    HttpAfterRule(rules, r, i);
    if rules[i].https != [] {
      var h := rules[i].https[0];
      HttpStep(rules, r, i, h);
      assert Wipes(rules, i, r) ==> h !in WithRule(rules, r)[i].https;
    }
    forall h | h in rules[i].https ensures h in WithRule(rules, r)[i].https <==> !Wipes(rules, i, r) {
      HttpStep(rules, r, i, h);
    }
    hide WithRule, HasKey, PeerOf, L4Of;
  }

  /** Where HTTP rule h of rule i comes from: the rule itself (k is -1) or the merged rule k. */
  ghost predicate ComesFrom(rules: seq<Rule>, more: seq<Rule>, i: nat, h: SpecHTTP, k: int)
    requires AllReadable(rules) && AllReadable(more) && i < |rules| && -1 <= k < |more|
  {
    if k == -1 then h in rules[i].https else Feeds(rules, i, more[k]) && h in more[k].https
  }

  /** HTTP rule h of rule i came from somewhere, and nothing merged after that takes it. */
  ghost predicate Lasts(rules: seq<Rule>, more: seq<Rule>, i: nat, h: SpecHTTP)
    requires AllReadable(rules) && AllReadable(more) && i < |rules|
  {
    exists k :: -1 <= k < |more| && LastsFrom(rules, more, i, h, k)
  }

  ghost predicate LastsFrom(rules: seq<Rule>, more: seq<Rule>, i: nat, h: SpecHTTP, k: int)
    requires AllReadable(rules) && AllReadable(more) && i < |rules| && -1 <= k < |more|
  {
    ComesFrom(rules, more, i, h, k) && forall j :: k < j < |more| ==> !Wipes(rules, i, more[j])
  }

  /** What the scan reaches does not depend on what was merged before. */
  lemma SameReach(rules: seq<Rule>, later: seq<Rule>, i: nat, r: Rule)
    requires AllReadable(rules) && AllReadable(later) && Readable(r) && i < |rules| <= |later|
    requires forall k :: 0 <= k < |rules| ==> SameButHttp(later[k], rules[k])
    ensures Feeds(later, i, r) <==> Feeds(rules, i, r)
    ensures Wipes(later, i, r) <==> Wipes(rules, i, r)
  {
    forall k | 0 <= k <= i
      ensures PeerOf(later[k]) == PeerOf(rules[k]) && L4Of(later[k]) == L4Of(rules[k])
        && later[k].icmps == rules[k].icmps
    {
      assert SameButHttp(later[k], rules[k]);
      SameReads(later[k], rules[k]);
    }
    hide SameButHttp, Readable, OneKind;
    KeysTransfer(rules[..i], later[..i], PeerOf(r), L4Of(r));
    hide HasKey, PeerOf, L4Of;
  }

  lemma LastsStep(rules: seq<Rule>, init: seq<Rule>, r: Rule, i: nat, h: SpecHTTP)
    requires AllReadable(rules) && AllReadable(init) && Readable(r) && OneKind(r) && i < |rules|
    ensures AllReadable(init + [r])
    ensures Lasts(rules, init + [r], i, h) <==>
      !Wipes(rules, i, r) && (Lasts(rules, init, i, h) || (Feeds(rules, i, r) && h in r.https))
  {
    var more := init + [r];
    assert more[|init|] == r && AllReadable(more);
    hide Feeds, Wipes;
    if Lasts(rules, more, i, h) {
      var k :| -1 <= k < |more| && LastsFrom(rules, more, i, h, k);
      if k < |init| {
        assert LastsFrom(rules, init, i, h, k) by {
          assert forall j :: 0 <= j < |init| ==> more[j] == init[j];
        }
        assert !Wipes(rules, i, more[|init|]);
      } else {
        FeedsNotWipes(rules, i, r);
      }
    }
    if !Wipes(rules, i, r) {
      if Feeds(rules, i, r) && h in r.https {
        assert LastsFrom(rules, more, i, h, |init|);
      } else if Lasts(rules, init, i, h) {
        var k :| -1 <= k < |init| && LastsFrom(rules, init, i, h, k);
        assert LastsFrom(rules, more, i, h, k) by {
          assert forall j :: 0 <= j < |init| ==> more[j] == init[j];
        }
      }
    }
  }

  lemma FeedsNotWipes(rules: seq<Rule>, i: nat, r: Rule)
    requires AllReadable(rules) && Readable(r) && i < |rules|
    ensures !(Feeds(rules, i, r) && Wipes(rules, i, r))
  {
  }

  /** After any number of merges an existing rule has exactly the HTTP rules that came from itself or from
      a rule with its peer and port, and that no later rule of its peer, for another port and not absorbed
      before, took away. */
  lemma {:induction false} HttpAfterMergesExactly(rules: seq<Rule>, more: seq<Rule>, i: nat, h: SpecHTTP)
    requires AllReadable(rules) && AllReadable(more) && i < |rules|
    ensures i < |WithRules(rules, more)|
    ensures h in WithRules(rules, more)[i].https <==> Lasts(rules, more, i, h)
    decreases |more|
  {
    MergedRulesStay(rules, more);
    if more == [] {
      assert LastsFrom(rules, more, i, h, -1) <==> h in rules[i].https;
    } else {
      var init, r := more[..|more| - 1], more[|more| - 1];
      HttpAfterMergesExactly(rules, init, i, h);
      var before := WithRules(rules, init);
      MergedRulesStay(rules, init);
      assert more == init + [r];
      WithRulesStep(rules, init, r);
      hide WithRules, Lasts, SameButHttp, Feeds, Wipes, WithRule;
      HttpStep(before, r, i, h);
      SameReach(rules, before, i, r);
      LastsStep(rules, init, r, i, h);
    }
  }

  /** Merging in two goes. */
  lemma {:induction false} MergeInTwo(rules: seq<Rule>, more: seq<Rule>, n: nat)
    requires AllReadable(rules) && AllReadable(more) && n <= |more|
    ensures WithRules(rules, more) == WithRules(WithRules(rules, more[..n]), more[n..])
    decreases |more|
  {
    hide WithRules, Readable, OneKind;
    if n == |more| {
      assert more[..n] == more && more[n..] == [];
      MergeNothing(WithRules(rules, more));
    } else {
      MergeInTwo(rules, more[..|more| - 1], n);
      MergeOneMore(rules, more, n);
    }
  }

  lemma MergeNothing(rules: seq<Rule>)
    requires AllReadable(rules)
    ensures WithRules(rules, []) == rules
  {
  }

  lemma MergeOneMore(rules: seq<Rule>, more: seq<Rule>, n: nat)
    requires AllReadable(rules) && AllReadable(more) && n < |more|
    requires var init := more[..|more| - 1];
      WithRules(rules, init) == WithRules(WithRules(rules, init[..n]), init[n..])
    ensures WithRules(rules, more) == WithRules(WithRules(rules, more[..n]), more[n..])
  {
    hide WithRules, WithRule, Readable, OneKind;
    var init, r := more[..|more| - 1], more[|more| - 1];
    assert init[..n] == more[..n] && more[n..] == init[n..] + [r] && more == init + [r];
    WithRulesStep(rules, init, r);
    WithRulesStep(WithRules(rules, more[..n]), init[n..], r);
  }

  /** Merging a rule of the same peer for another port takes the HTTP rules from the first: a permission
      for one request becomes a permission for every request on the port. */
  lemma OtherPortLosesHttp(labels: LabelMap, a: SpecPort, b: SpecPort, h: SpecHTTP)
    requires labels != map[] && a != b
    ensures
      var x, y := NO_RULE.(labels := labels, ports := [a], https := [h]), NO_RULE.(labels := labels, ports := [b]);
      AllReadable([x]) && Readable(y) && WithRule([x], y) == [x.(https := []), y]
  {
    var x, y := NO_RULE.(labels := labels, ports := [a], https := [h]), NO_RULE.(labels := labels, ports := [b]);
    assert [x][1..] == [];
    assert Absorb([x], y).0 == [x.(https := [])] && !Absorb([x], y).1;
  }
}
