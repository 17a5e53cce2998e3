/** The loops that merge system policies: first by class, then rules of one name, then sorting. */
module SysPolicyMerge {
  import opened Paths
  import opened SysPolicies

  // ================================================================ sorting by key

  /** sort.Slice with a key: some ordered permutation. */
  method SortByKey<T(==,!new)>(s: seq<T>, key: T -> string) returns (sorted: seq<T>)
    ensures multiset(sorted) == multiset(s) && KeyOrdered(sorted, key)
  {
    sorted := [];
    for i := 0 to |s|
      invariant multiset(sorted) == multiset(s[..i]) && KeyOrdered(sorted, key)
    {
      assert s[..i + 1] == s[..i] + [s[i]];
      sorted := InsertByKey(sorted, s[i], key);
    }
    assert s[..|s|] == s;
  }

  method InsertByKey<T(==,!new)>(s: seq<T>, x: T, key: T -> string) returns (r: seq<T>)
    requires KeyOrdered(s, key)
    ensures multiset(r) == multiset(s) + multiset{x} && KeyOrdered(r, key)
  {
    var i := |s|;
    while i > 0 && LexLess(key(x), key(s[i - 1]))
      invariant 0 <= i <= |s|
      invariant forall k :: i <= k < |s| ==> LexLess(key(x), key(s[k]))
    {
      i := i - 1;
    }
    r := s[..i] + [x] + s[i..];
    assert s == s[..i] + s[i..];
    InsertedOrdered(s, x, key, i);
  }

  lemma InsertedOrdered<T(!new)>(s: seq<T>, x: T, key: T -> string, i: nat)
    requires KeyOrdered(s, key) && i <= |s|
    requires forall k :: i <= k < |s| ==> LexLess(key(x), key(s[k]))
    requires i > 0 ==> !LexLess(key(x), key(s[i - 1]))
    ensures KeyOrdered(s[..i] + [x] + s[i..], key)
  {
    var r := s[..i] + [x] + s[i..];
    forall a, b | 0 <= a < b < |r| ensures !LexLess(key(r[b]), key(r[a])) {
      if b < i {
        assert r[a] == s[a] && r[b] == s[b];
      } else if b == i {
        assert r[a] == s[a] && r[b] == x;
        NotAfter(key(x), key(s[i - 1]), key(s[a]), a == i - 1);
      } else if a == i {
        assert r[a] == x && r[b] == s[b - 1];
        LexTotal(key(x), key(s[b - 1]));
      } else {
        assert r[b] == s[b - 1] && r[a] == if a < i then s[a] else s[a - 1];
      }
    }
  }

  lemma NotAfter(x: string, last: string, y: string, same: bool)
    requires !LexLess(x, last) && (if same then y == last else !LexLess(last, y))
    ensures !LexLess(x, y)
  {
    LexTotal(x, last);
    LexTotal(last, y);
    if LexLess(x, y) {
      if y != last { LexTrans(x, y, last); }
    }
  }

  // ================================================================ rules of one list

  /** What one input rule does to the merged rules so far. */
  ghost predicate Absorbed(before: seq<Rule>, pp: Rule, after: seq<Rule>, i: nat) {
    && |after| == |before| && i <= |before|
    && (forall k :: 0 <= k < i ==>
          && after[k].name == before[k].name && after[k].attrs == before[k].attrs
          && KeyOrdered(after[k].sources, SourceKey)
          && multiset(after[k].sources) ==
             multiset(before[k].sources) + if before[k].name == pp.name then multiset(pp.sources) else multiset{})
    && forall k :: i <= k < |before| ==> after[k] == before[k]
  }

  /** Appends the sources of one rule to the rule of the same name, and sorts the sources of all rules. */
  method AbsorbRule(pp: Rule, before: seq<Rule>) returns (mp: seq<Rule>, matched: bool)
    ensures Absorbed(before, pp, mp, |before|) && (matched <==> HasName(before, pp.name))
  {
    mp, matched := before, false;
    for i := 0 to |before|
      invariant Absorbed(before, pp, mp, i)
      invariant matched <==> HasName(before[..i], pp.name)
    {
      var rp := mp[i];
      assert before[..i + 1] == before[..i] + [before[i]];
      LastRule(before[..i], before[i], pp.name);
      if pp.name == rp.name {
        rp := rp.(sources := rp.sources + pp.sources);
        matched := true;
      }
      var sources := SortByKey(rp.sources, SourceKey);
      mp := mp[i := rp.(sources := sources)];
    }
    assert before[..|before|] == before;
  }

  lemma AbsorbedMerges(input: seq<Rule>, before: seq<Rule>, pp: Rule, after: seq<Rule>)
    requires MergesTo(input, before) && Absorbed(before, pp, after, |before|)
    ensures HasName(before, pp.name) ==> MergesTo(input + [pp], after)
    ensures !HasName(before, pp.name) ==> MergesTo(input + [pp], after + [pp])
  {
    forall n ensures HasName(after, n) <==> HasName(before, n) {
      if i :| 0 <= i < |after| && after[i].name == n { assert before[i].name == n; }
      if i :| 0 <= i < |before| && before[i].name == n { assert after[i].name == n; }
    }
    forall n { LastRule(input, pp, n); }
    forall i | 0 <= i < |after|
      ensures multiset(after[i].sources) == SourcesOf(input + [pp], after[i].name)
      ensures after[i].attrs == FirstAttrs(input + [pp], after[i].name)
    {
      LastRule(input, pp, after[i].name);
      assert HasName(before, before[i].name);
    }
    if !HasName(before, pp.name) {
      NoSources(input, pp.name);
      AppendNew(input, after, pp);
    }
  }

  lemma AppendNew(input: seq<Rule>, after: seq<Rule>, pp: Rule)
    requires UniqueNames(after) && !HasName(after, pp.name) && !HasName(input, pp.name)
    requires forall n :: HasName(after, n) <==> HasName(input, n)
    requires SourcesOf(input, pp.name) == multiset{}
    requires forall i :: 0 <= i < |after| ==>
      && multiset(after[i].sources) == SourcesOf(input + [pp], after[i].name)
      && after[i].attrs == FirstAttrs(input + [pp], after[i].name)
    ensures MergesTo(input + [pp], after + [pp])
  {
    var all := after + [pp];
    hide SourcesOf, FirstAttrs;
    NamesAfterAppend(input, after, pp);
    LastRule(input, pp, pp.name);
    forall i | 0 <= i < |all|
      ensures multiset(all[i].sources) == SourcesOf(input + [pp], all[i].name)
      ensures all[i].attrs == FirstAttrs(input + [pp], all[i].name)
    {
      if i < |after| { assert all[i] == after[i]; }
    }
  }

  lemma NamesAfterAppend(input: seq<Rule>, after: seq<Rule>, pp: Rule)
    requires UniqueNames(after) && !HasName(after, pp.name)
    requires forall n :: HasName(after, n) <==> HasName(input, n)
    ensures UniqueNames(after + [pp]) && forall n :: HasName(after + [pp], n) <==> HasName(input + [pp], n)
  {
    forall n ensures HasName(after + [pp], n) <==> HasName(input + [pp], n) {
      LastRule(input, pp, n);
      LastRule(after, pp, n);
    }
  }

  /** Merges one rule list into another. */
  method MergeFromSourceRules(pmp: seq<Rule>, mp0: seq<Rule>, ghost input: seq<Rule>) returns (mp: seq<Rule>)
    requires MergesTo(input, mp0)
    ensures MergesTo(input + pmp, mp)
    ensures AtMostOneSource(pmp) && SourcesSorted(mp0) ==> SourcesSorted(mp)
  {
    hide *;
    mp := mp0;
    assert input + pmp[..0] == input;
    for i := 0 to |pmp|
      invariant MergesTo(input + pmp[..i], mp)
      invariant AtMostOneSource(pmp) && SourcesSorted(mp0) ==> SourcesSorted(mp)
    {
      ghost var before := mp;
      var pp, matched := pmp[i], false;
      mp, matched := AbsorbRule(pp, mp);
      AbsorbedMerges(input + pmp[..i], before, pp, mp);
      AbsorbedSorted(before, pp, mp);
      if !matched {
        mp := mp + [pp];
      }
      NextRule(input, pmp, i);
    }
    assert pmp[..|pmp|] == pmp;
  }

  lemma NextRule(input: seq<Rule>, pmp: seq<Rule>, i: nat)
    requires i < |pmp|
    ensures input + pmp[..i] + [pmp[i]] == input + pmp[..i + 1]
    ensures AtMostOneSource(pmp) ==> |pmp[i].sources| <= 1
  {
  }

  lemma AbsorbedSorted(before: seq<Rule>, pp: Rule, after: seq<Rule>)
    requires Absorbed(before, pp, after, |before|)
    ensures SourcesSorted(after) && (|pp.sources| <= 1 ==> SourcesSorted(after + [pp]))
  {
  }

  // ================================================================ policies of one class

  /** The first result of the class of the policy. */
  method CheckIfMetadataMatches(pin: Policy, hay: seq<Policy>) returns (i: int)
    ensures i == -1 <==> !HasMeta(hay, pin.meta)
    ensures i != -1 ==> 0 <= i < |hay| && hay[i].meta == pin.meta
  {
    for idx := 0 to |hay|
      invariant forall k :: 0 <= k < idx ==> hay[k].meta != pin.meta
    {
      if pin.meta == hay[idx].meta {
        return idx;
      }
    }
    return -1;
  }

  /** One policy for each class so far, its lists the concatenation of those given for the class. */
  ghost predicate ClassesConcatenated(pols: seq<Policy>, results: seq<Policy>) {
    && UniqueMetas(results)
    && (forall m :: HasMeta(results, m) <==> HasMeta(pols, m))
    && forall i, k :: 0 <= i < |results| ==> RulesOf(results[i], k) == InClass(pols, results[i].meta, k)
  }

  function WithRules(p: Policy, q: Policy): Policy {
    p.(filePaths := p.filePaths + q.filePaths, fileDirs := p.fileDirs + q.fileDirs,
       processPaths := p.processPaths + q.processPaths, processDirs := p.processDirs + q.processDirs,
       protocols := p.protocols + q.protocols)
  }

  lemma WithRulesOf(p: Policy, q: Policy, k: Kind)
    ensures RulesOf(WithRules(p, q), k) == RulesOf(p, k) + RulesOf(q, k)
  {
  }

  lemma ConcatenatedStep(pols: seq<Policy>, results: seq<Policy>, p: Policy, i: nat)
    requires ClassesConcatenated(pols, results) && i < |results| && results[i].meta == p.meta
    ensures ClassesConcatenated(pols + [p], results[i := WithRules(results[i], p)])
  {
    var results' := results[i := WithRules(results[i], p)];
    SameMetas(results, results');
    hide InClass;
    forall m ensures HasMeta(results', m) <==> HasMeta(pols + [p], m) {
      LastPolicy(pols, p, m, FilePaths);
      if m == p.meta { assert HasMeta(results, m); }
    }
    forall j, k | 0 <= j < |results'| ensures RulesOf(results'[j], k) == InClass(pols + [p], results'[j].meta, k) {
      LastPolicy(pols, p, results[j].meta, k);
      WithRulesOf(results[i], p, k);
      if j != i { assert results[j].meta != results[i].meta by { assert i < j || j < i; } }
    }
  }

  lemma SameMetas(a: seq<Policy>, b: seq<Policy>)
    requires |a| == |b| && forall i :: 0 <= i < |a| ==> a[i].meta == b[i].meta
    ensures UniqueMetas(a) <==> UniqueMetas(b)
    ensures forall m :: HasMeta(a, m) <==> HasMeta(b, m)
  {
    forall m ensures HasMeta(a, m) <==> HasMeta(b, m) {
      if i :| 0 <= i < |a| && a[i].meta == m { assert b[i].meta == m; }
      if i :| 0 <= i < |b| && b[i].meta == m { assert a[i].meta == m; }
    }
  }

  lemma ConcatenatedNew(pols: seq<Policy>, results: seq<Policy>, p: Policy)
    requires ClassesConcatenated(pols, results) && !HasMeta(results, p.meta)
    ensures ClassesConcatenated(pols + [p], results + [p])
  {
    var results' := results + [p];
    hide InClass;
    forall m ensures HasMeta(results', m) <==> HasMeta(pols + [p], m) {
      LastPolicy(pols, p, m, FilePaths);
      LastPolicy(results, p, m, FilePaths);
    }
    forall j, k | 0 <= j < |results'| ensures RulesOf(results'[j], k) == InClass(pols + [p], results'[j].meta, k) {
      LastPolicy(pols, p, results'[j].meta, k);
      if j == |results| {
        NothingInClass(pols, p.meta, k);
      } else {
        assert results'[j] == results[j];
      }
    }
    forall i, j | 0 <= i < j < |results'| ensures results'[i].meta != results'[j].meta {
      assert results'[i] == results[i];
    }
  }

  // ---------------------------------------------------------------- what is not a rule

  /** A policy without its rules. */
  datatype Head = Head(meta: Meta, other: string)

  function HeadOf(p: Policy): Head { Head(p.meta, p.other) }

  function Heads(pols: seq<Policy>): seq<Head> {
    seq(|pols|, i requires 0 <= i < |pols| => HeadOf(pols[i]))
  }

  ghost predicate HasHead(hs: seq<Head>, m: Meta) {
    exists i :: 0 <= i < |hs| && hs[i].meta == m
  }

  /** The first of each class, in order. */
  ghost function FirstHeads(hs: seq<Head>): seq<Head> {
    if hs == [] then []
    else
      var before, h := FirstHeads(hs[..|hs| - 1]), hs[|hs| - 1];
      if HasHead(before, h.meta) then before else before + [h]
  }

  lemma HeadsMeta(pols: seq<Policy>, m: Meta)
    ensures HasHead(Heads(pols), m) <==> HasMeta(pols, m)
  {
    if i :| 0 <= i < |pols| && pols[i].meta == m { assert Heads(pols)[i].meta == m; }
    if i :| 0 <= i < |Heads(pols)| && Heads(pols)[i].meta == m { assert pols[i].meta == m; }
  }

  /** One more policy: a new class is a new result, an old one keeps what it has. */
  lemma HeadsStep(pols: seq<Policy>, n: nat, results: seq<Policy>)
    requires n < |pols| && Heads(results) == FirstHeads(Heads(pols[..n]))
    ensures FirstHeads(Heads(pols[..n + 1])) ==
      if HasMeta(results, pols[n].meta) then Heads(results) else Heads(results) + [HeadOf(pols[n])]
  {
    HeadsMeta(results, pols[n].meta);
    var hs := Heads(pols[..n + 1]);
    assert hs[..|hs| - 1] == Heads(pols[..n]) && hs[|hs| - 1] == HeadOf(pols[n]);
  }

  lemma SameHeads(results: seq<Policy>, i: nat, q: Policy)
    requires i < |results| && q.meta == results[i].meta && q.other == results[i].other
    ensures Heads(results[i := q]) == Heads(results)
  {
  }

  lemma MoreHeads(results: seq<Policy>, p: Policy)
    ensures Heads(results + [p]) == Heads(results) + [HeadOf(p)]
  {
  }

  /** Classes that are all different are their own firsts. */
  lemma {:induction false} FirstsOfUnique(pols: seq<Policy>)
    requires UniqueMetas(pols)
    ensures FirstHeads(Heads(pols)) == Heads(pols)
    decreases |pols|
  {
    if pols != [] {
      var n := |pols| - 1;
      LastIsNew(pols);
      hide FirstHeads, Heads, HasMeta;
      FirstsOfUnique(pols[..n]);
      HeadsStep(pols, n, pols[..n]);
      MoreHeads(pols[..n], pols[n]);
      assert pols[..n + 1] == pols == pols[..n] + [pols[n]];
    }
  }

  lemma LastIsNew(pols: seq<Policy>)
    requires UniqueMetas(pols) && pols != []
    ensures UniqueMetas(pols[..|pols| - 1]) && !HasMeta(pols[..|pols| - 1], pols[|pols| - 1].meta)
  {
  }

  /** The first loop: appends the rules of each policy to the result of its class. */
  method ConcatenateByClass(pols: seq<Policy>) returns (results: seq<Policy>)
    ensures ClassesConcatenated(pols, results)
    ensures Heads(results) == FirstHeads(Heads(pols))
  {
    results := [];
    NothingYet();
    hide ClassesConcatenated, WithRules, FirstHeads;
    NoHeads();
    for n := 0 to |pols|
      invariant ClassesConcatenated(pols[..n], results)
      invariant Heads(results) == FirstHeads(Heads(pols[..n]))
    {
      var pol := pols[n];
      HeadsStep(pols, n, results);
      assert pols[..n + 1] == pols[..n] + [pol];
      var i := CheckIfMetadataMatches(pol, results);
      if i < 0 {
        ConcatenatedNew(pols[..n], results, pol);
        MoreHeads(results, pol);
        results := results + [pol];
        continue;
      }
      ConcatenatedStep(pols[..n], results, pol, i);
      OtherOfRules(results[i], pol);
      SameHeads(results, i, WithRules(results[i], pol));
      results := results[i := WithRules(results[i], pol)];
    }
    assert pols[..|pols|] == pols;
  }

  lemma NoHeads()
    ensures FirstHeads(Heads([])) == [] && Heads([]) == []
  {
  }

  lemma OtherOfRules(p: Policy, q: Policy)
    ensures WithRules(p, q).meta == p.meta && WithRules(p, q).other == p.other
  {
  }

  lemma NothingYet()
    ensures ClassesConcatenated([], []) && ClassesMerged([], [])
  {
  }

  lemma MergesNothing()
    ensures MergesTo([], []) && SourcesSorted([])
  {
  }

  function Emptied(p: Policy): Policy {
    p.(filePaths := [], fileDirs := [], processPaths := [], processDirs := [], protocols := [])
  }

  lemma EmptiedHead(p: Policy)
    ensures HeadOf(Emptied(p)) == HeadOf(p)
  {
  }

  /** A result of a new class starts without rules. */
  lemma MergedNew(pols: seq<Policy>, results: seq<Policy>, p: Policy)
    requires ClassesMerged(pols, results) && !HasMeta(results, p.meta)
    ensures UniqueMetas(results + [Emptied(p)]) && HasMeta(results + [Emptied(p)], p.meta)
    ensures forall m :: HasMeta(results + [Emptied(p)], m) <==> HasMeta(pols, m) || m == p.meta
    ensures forall i, k :: 0 <= i < |results| + 1 ==>
      MergesTo(InClass(pols, (results + [Emptied(p)])[i].meta, k), RulesOf((results + [Emptied(p)])[i], k))
  {
    var results' := results + [Emptied(p)];
    hide InClass, MergesTo;
    forall m ensures HasMeta(results', m) <==> HasMeta(pols, m) || m == p.meta {
      LastPolicy(results, Emptied(p), m, FilePaths);
    }
    forall i, j | 0 <= i < j < |results'| ensures results'[i].meta != results'[j].meta {
      assert results'[i] == results[i];
      assert HasMeta(results, results[i].meta);
    }
    forall i, k | 0 <= i < |results'| ensures MergesTo(InClass(pols, results'[i].meta, k), RulesOf(results'[i], k)) {
      if i == |results| {
        NothingInClass(pols, p.meta, k);
        MergesNothing();
      } else {
        assert results'[i] == results[i];
      }
    }
  }

  lemma MergedStep(pols: seq<Policy>, results: seq<Policy>, p: Policy, i: nat, q: Policy)
    requires UniqueMetas(results) && i < |results| && results[i].meta == p.meta == q.meta
    requires forall m :: HasMeta(results, m) <==> HasMeta(pols, m) || m == p.meta
    requires forall j, k :: 0 <= j < |results| && j != i ==>
      MergesTo(InClass(pols, results[j].meta, k), RulesOf(results[j], k))
    requires forall k :: MergesTo(InClass(pols, p.meta, k) + RulesOf(p, k), RulesOf(q, k))
    ensures ClassesMerged(pols + [p], results[i := q])
  {
    var results' := results[i := q];
    SameMetas(results, results');
    hide InClass, MergesTo;
    forall m ensures HasMeta(results', m) <==> HasMeta(pols + [p], m) { LastPolicy(pols, p, m, FilePaths); }
    forall j, k | 0 <= j < |results'|
      ensures MergesTo(InClass(pols + [p], results'[j].meta, k), RulesOf(results'[j], k))
    {
      LastPolicy(pols, p, results'[j].meta, k);
      if j != i {
        assert results[j].meta != results[i].meta by { assert i < j || j < i; }
        assert InClass(pols, results[j].meta, k) + [] == InClass(pols, results[j].meta, k);
      }
    }
  }

  /** Merges the rules of a policy into the result of its class. */
  method MergePolicy(pol: Policy, result: Policy, ghost pols: seq<Policy>) returns (q: Policy)
    requires result.meta == pol.meta
    requires forall k :: MergesTo(InClass(pols, pol.meta, k), RulesOf(result, k))
    ensures q.meta == result.meta && q.other == result.other
    ensures forall k :: MergesTo(InClass(pols, pol.meta, k) + RulesOf(pol, k), RulesOf(q, k))
    ensures (forall k :: AtMostOneSource(RulesOf(pol, k)) && SourcesSorted(RulesOf(result, k))) ==>
      forall k :: SourcesSorted(RulesOf(q, k))
  {
    hide InClass, MergesTo, SourcesSorted, AtMostOneSource;
    var m := pol.meta;
    assert forall k :: MergesTo(InClass(pols, m, k), RulesOf(result, k));
    assert MergesTo(InClass(pols, m, FilePaths), RulesOf(result, FilePaths));
    assert MergesTo(InClass(pols, m, FileDirs), RulesOf(result, FileDirs));
    assert MergesTo(InClass(pols, m, ProcessPaths), RulesOf(result, ProcessPaths));
    assert MergesTo(InClass(pols, m, ProcessDirs), RulesOf(result, ProcessDirs));
    assert MergesTo(InClass(pols, m, Protocols), RulesOf(result, Protocols));
    var filePaths := MergeFromSourceRules(pol.filePaths, result.filePaths, InClass(pols, m, FilePaths));
    var fileDirs := MergeFromSourceRules(pol.fileDirs, result.fileDirs, InClass(pols, m, FileDirs));
    var processPaths := MergeFromSourceRules(pol.processPaths, result.processPaths, InClass(pols, m, ProcessPaths));
    var processDirs := MergeFromSourceRules(pol.processDirs, result.processDirs, InClass(pols, m, ProcessDirs));
    var protocols := MergeFromSourceRules(pol.protocols, result.protocols, InClass(pols, m, Protocols));
    q := result.(filePaths := filePaths, fileDirs := fileDirs, processPaths := processPaths,
                 processDirs := processDirs, protocols := protocols);
    forall k ensures MergesTo(InClass(pols, m, k) + RulesOf(pol, k), RulesOf(q, k)) {
      match k
      case FilePaths =>
      case FileDirs =>
      case ProcessPaths =>
      case ProcessDirs =>
      case Protocols =>
    }
    if forall k :: AtMostOneSource(RulesOf(pol, k)) && SourcesSorted(RulesOf(result, k)) {
      EachKind(pol, result);
    }
  }

  lemma EachKind(pol: Policy, result: Policy)
    requires forall k :: AtMostOneSource(RulesOf(pol, k)) && SourcesSorted(RulesOf(result, k))
    ensures AtMostOneSource(pol.filePaths) && AtMostOneSource(pol.fileDirs) && AtMostOneSource(pol.processPaths)
    ensures AtMostOneSource(pol.processDirs) && AtMostOneSource(pol.protocols)
    ensures SourcesSorted(result.filePaths) && SourcesSorted(result.fileDirs) && SourcesSorted(result.processPaths)
    ensures SourcesSorted(result.processDirs) && SourcesSorted(result.protocols)
  {
    hide SourcesSorted, AtMostOneSource;
    assert AtMostOneSource(RulesOf(pol, FilePaths)) && AtMostOneSource(RulesOf(pol, FileDirs));
    assert AtMostOneSource(RulesOf(pol, ProcessPaths)) && AtMostOneSource(RulesOf(pol, ProcessDirs));
    assert AtMostOneSource(RulesOf(pol, Protocols)) && SourcesSorted(RulesOf(result, Protocols));
    assert SourcesSorted(RulesOf(result, FilePaths)) && SourcesSorted(RulesOf(result, FileDirs));
    assert SourcesSorted(RulesOf(result, ProcessPaths)) && SourcesSorted(RulesOf(result, ProcessDirs));
  }

  ghost predicate AllAtMostOneSource(pols: seq<Policy>) {
    forall i, k :: 0 <= i < |pols| ==> AtMostOneSource(RulesOf(pols[i], k))
  }

  lemma MergedParts(pols: seq<Policy>, results: seq<Policy>, p: Policy, i: nat)
    requires ClassesMerged(pols, results) && i < |results| && results[i].meta == p.meta
    ensures UniqueMetas(results) && forall m :: HasMeta(results, m) <==> HasMeta(pols, m) || m == p.meta
    ensures forall j, k :: 0 <= j < |results| ==> MergesTo(InClass(pols, results[j].meta, k), RulesOf(results[j], k))
  {
    assert HasMeta(results, p.meta);
  }

  lemma NewSorted(results: seq<Policy>, p: Policy)
    requires AllSourcesSorted(results)
    ensures AllSourcesSorted(results + [Emptied(p)])
  {
  }

  lemma StepSorted(pols: seq<Policy>, n: nat, results: seq<Policy>, i: nat, q: Policy)
    requires AllAtMostOneSource(pols) && n < |pols| && AllSourcesSorted(results) && i < |results|
    requires (forall k :: AtMostOneSource(RulesOf(pols[n], k)) && SourcesSorted(RulesOf(results[i], k))) ==>
      forall k :: SourcesSorted(RulesOf(q, k))
    ensures AllSourcesSorted(results[i := q])
  {
    hide SourcesSorted, AtMostOneSource, RulesOf;
    forall k ensures AtMostOneSource(RulesOf(pols[n], k)) && SourcesSorted(RulesOf(results[i], k)) {}
  }

  /** The second loop: merges the rules of each policy into the result of its class. */
  method MergeFromSource(pols: seq<Policy>) returns (results: seq<Policy>)
    ensures ClassesMerged(pols, results)
    ensures AllAtMostOneSource(pols) ==> AllSourcesSorted(results)
    ensures Heads(results) == FirstHeads(Heads(pols))
  {
    results := [];
    NothingYet();
    NoHeads();
    assert AllSourcesSorted([]);
    hide *;
    for n := 0 to |pols|
      invariant Heads(results) == FirstHeads(Heads(pols[..n]))
      invariant ClassesMerged(pols[..n], results)
      invariant AllAtMostOneSource(pols) ==> AllSourcesSorted(results)
    {
      var pol := pols[n];
      assert pols[..n + 1] == pols[..n] + [pol];
      HeadsStep(pols, n, results);
      var i := CheckIfMetadataMatches(pol, results);
      if i < 0 {
        EmptiedHead(pol);
        MoreHeads(results, Emptied(pol));
        MergedNew(pols[..n], results, pol);
        if AllSourcesSorted(results) { NewSorted(results, pol); }
        results := results + [Emptied(pol)];
        i := CheckIfMetadataMatches(pol, results);
      } else {
        MergedParts(pols[..n], results, pol, i);
      }
      var q := MergePolicy(pol, results[i], pols[..n]);
      if AllAtMostOneSource(pols) { StepSorted(pols, n, results, i, q); }
      MergedStep(pols[..n], results, pol, i, q);
      SameHeads(results, i, q);
      results := results[i := q];
    }
    assert pols[..|pols|] == pols;
  }

  lemma UniqueAfterSort(a: seq<Rule>, b: seq<Rule>)
    requires UniqueNames(a) && multiset(a) == multiset(b)
    ensures UniqueNames(b)
    ensures forall n :: HasName(a, n) <==> HasName(b, n)
    ensures forall r :: r in b <==> r in a
  {
    UniqueNamesDistinct(a);
    SameMultisetDistinct(a, b);
    forall r ensures r in a <==> r in b {
      assert r in a <==> r in multiset(a);
      assert r in b <==> r in multiset(b);
    }
    forall i, j | 0 <= i < j < |b| ensures b[i].name != b[j].name {
      assert b[i] in a && b[j] in a;
      var x :| 0 <= x < |a| && a[x] == b[i];
      var y :| 0 <= y < |a| && a[y] == b[j];
      assert x < y || y < x;
    }
    forall n ensures HasName(a, n) <==> HasName(b, n) {
      if i :| 0 <= i < |a| && a[i].name == n { assert a[i] in b; }
      if i :| 0 <= i < |b| && b[i].name == n { assert b[i] in a; }
    }
  }

  lemma SortedMerges(input: seq<Rule>, a: seq<Rule>, b: seq<Rule>)
    requires MergesTo(input, a) && multiset(a) == multiset(b)
    ensures MergesTo(input, b) && (SourcesSorted(a) ==> SourcesSorted(b))
  {
    UniqueAfterSort(a, b);
    forall i | 0 <= i < |b| ensures exists j :: 0 <= j < |a| && a[j] == b[i] { assert b[i] in a; }
  }

  /** Sorts every rule list of a policy. */
  method SortPolicy(pol: Policy) returns (q: Policy)
    ensures q.meta == pol.meta && q.other == pol.other
    ensures forall k :: multiset(RulesOf(q, k)) == multiset(RulesOf(pol, k)) && KeyOrdered(RulesOf(q, k), RuleKey)
  {
    hide KeyOrdered;
    var filePaths := SortByKey(pol.filePaths, RuleKey);
    var fileDirs := SortByKey(pol.fileDirs, RuleKey);
    var processPaths := SortByKey(pol.processPaths, RuleKey);
    var processDirs := SortByKey(pol.processDirs, RuleKey);
    var protocols := SortByKey(pol.protocols, RuleKey);
    q := pol.(filePaths := filePaths, fileDirs := fileDirs, processPaths := processPaths,
              processDirs := processDirs, protocols := protocols);
  }

  /** The same policies up to the order of their rules. */
  ghost predicate SortedUpTo(merged: seq<Policy>, results: seq<Policy>, n: nat) {
    && |results| == |merged| && n <= |merged|
    && (forall i :: 0 <= i < |merged| ==> results[i].meta == merged[i].meta)
    && (forall i, k :: 0 <= i < |merged| ==> multiset(RulesOf(results[i], k)) == multiset(RulesOf(merged[i], k)))
    && forall i, k :: 0 <= i < n ==> KeyOrdered(RulesOf(results[i], k), RuleKey)
  }

  lemma SortedClasses(pols: seq<Policy>, merged: seq<Policy>, results: seq<Policy>)
    requires ClassesMerged(pols, merged) && SortedUpTo(merged, results, |merged|)
    ensures ClassesMerged(pols, results) && RulesSorted(results)
    ensures AllSourcesSorted(merged) ==> AllSourcesSorted(results)
  {
    SameMetas(merged, results);
    hide MergesTo, SourcesSorted, InClass;
    forall i, k | 0 <= i < |results|
      ensures MergesTo(InClass(pols, results[i].meta, k), RulesOf(results[i], k))
      ensures SourcesSorted(RulesOf(merged[i], k)) ==> SourcesSorted(RulesOf(results[i], k))
    {
      SortedMerges(InClass(pols, results[i].meta, k), RulesOf(merged[i], k), RulesOf(results[i], k));
    }
  }

  lemma SortedStep(merged: seq<Policy>, results: seq<Policy>, n: nat, q: Policy)
    requires SortedUpTo(merged, results, n) && n < |merged| && q.meta == results[n].meta
    requires forall k ::
      multiset(RulesOf(q, k)) == multiset(RulesOf(results[n], k)) && KeyOrdered(RulesOf(q, k), RuleKey)
    ensures SortedUpTo(merged, results[n := q], n + 1)
  {
    hide KeyOrdered, RulesOf;
    var results' := results[n := q];
    forall i, k | 0 <= i < |merged|
      ensures multiset(RulesOf(results'[i], k)) == multiset(RulesOf(merged[i], k))
    {
      assert multiset(RulesOf(results[i], k)) == multiset(RulesOf(merged[i], k));
    }
    forall i, k | 0 <= i < n + 1 ensures KeyOrdered(RulesOf(results'[i], k), RuleKey) {
      if i < n { assert KeyOrdered(RulesOf(results[i], k), RuleKey); }
    }
  }

  method SortRules(merged: seq<Policy>) returns (results: seq<Policy>)
    ensures SortedUpTo(merged, results, |merged|) && Heads(results) == Heads(merged)
  {
    results := merged;
    hide KeyOrdered, RulesOf, Heads;
    for n := 0 to |merged|
      invariant SortedUpTo(merged, results, n) && Heads(results) == Heads(merged)
    {
      var q := SortPolicy(results[n]);
      SameHeads(results, n, q);
      SortedStep(merged, results, n, q);
      results := results[n := q];
    }
  }

  lemma ConcatenatedUnique(pols: seq<Policy>, results: seq<Policy>)
    requires ClassesConcatenated(pols, results)
    ensures UniqueMetas(results)
  {
  }

  lemma ClassesCompose(pols: seq<Policy>, concatenated: seq<Policy>, results: seq<Policy>)
    requires ClassesConcatenated(pols, concatenated) && ClassesMerged(concatenated, results)
    ensures ClassesMerged(pols, results)
    ensures AllAtMostOneSource(pols) ==> AllAtMostOneSource(concatenated)
  {
    hide MergesTo, InClass, AtMostOneSource;
    forall i, k | 0 <= i < |results| ensures MergesTo(InClass(pols, results[i].meta, k), RulesOf(results[i], k)) {
      assert HasMeta(results, results[i].meta);
      var j :| 0 <= j < |concatenated| && concatenated[j].meta == results[i].meta;
      InUniqueClass(concatenated, j, k);
    }
    if AllAtMostOneSource(pols) {
      forall i, k | 0 <= i < |concatenated| ensures AtMostOneSource(RulesOf(concatenated[i], k)) {
        ClassAtMostOne(pols, concatenated[i].meta, k);
      }
    }
  }

  lemma {:induction false} ClassAtMostOne(pols: seq<Policy>, m: Meta, k: Kind)
    requires AllAtMostOneSource(pols)
    ensures AtMostOneSource(InClass(pols, m, k))
  {
    if pols != [] {
      var last := |pols| - 1;
      ClassAtMostOne(pols[..last], m, k);
      assert AtMostOneSource(RulesOf(pols[last], k));
    }
  }

  /** Merges system policies: one policy for each class, one rule for each name, all sources kept,
      everything sorted; what is not a rule is that of the first of the class. */
  method MergeSysPolicies(pols: seq<Policy>) returns (results: seq<Policy>)
    ensures ClassesMerged(pols, results) && RulesSorted(results)
    ensures AllAtMostOneSource(pols) ==> AllSourcesSorted(results)
    ensures Heads(results) == FirstHeads(Heads(pols))
  {
    hide *;
    var concatenated := ConcatenateByClass(pols);
    ConcatenatedUnique(pols, concatenated);
    FirstsOfUnique(concatenated);
    var merged := MergeFromSource(concatenated);
    ClassesCompose(pols, concatenated, merged);
    results := SortRules(merged);
    SortedClasses(pols, merged, results);
  }
}
