/** System policies as values, and what merging them must conserve. */
module SysPolicies {
  import opened Paths

  datatype Source = Source(path: string, dir: string)

  datatype Attrs = Attrs(readOnly: bool, ownerOnly: bool, recursive: bool)

  /** A rule for one path, directory or protocol; without sources it holds for every process. */
  datatype Rule = Rule(name: string, attrs: Attrs, sources: seq<Source>)

  datatype Kind = FilePaths | FileDirs | ProcessPaths | ProcessDirs | Protocols

  datatype Meta = Meta(clusterName: string, namespace: string, labels: string)

  /** A policy: what identifies its class, its five rule lists, and everything else as one text. */
  datatype Policy = Policy(meta: Meta, other: string, filePaths: seq<Rule>, fileDirs: seq<Rule>,
                           processPaths: seq<Rule>, processDirs: seq<Rule>, protocols: seq<Rule>)

  function RulesOf(p: Policy, k: Kind): seq<Rule> {
    match k
    case FilePaths => p.filePaths
    case FileDirs => p.fileDirs
    case ProcessPaths => p.processPaths
    case ProcessDirs => p.processDirs
    case Protocols => p.protocols
  }

  // ================================================================ merging rules of one list

  ghost predicate HasName(rules: seq<Rule>, n: string) {
    exists i :: 0 <= i < |rules| && rules[i].name == n
  }

  ghost predicate UniqueNames(rules: seq<Rule>) {
    forall i, j :: 0 <= i < j < |rules| ==> rules[i].name != rules[j].name
  }

  /** All sources given for a name, with repetitions. */
  ghost function SourcesOf(rules: seq<Rule>, n: string): multiset<Source> {
    if rules == [] then multiset{}
    else
      var r := rules[|rules| - 1];
      SourcesOf(rules[..|rules| - 1], n) + if r.name == n then multiset(r.sources) else multiset{}
  }

  /** The attributes of the first rule with the name. */
  ghost function FirstAttrs(rules: seq<Rule>, n: string): Attrs {
    if rules == [] then Attrs(false, false, false)
    else if HasName(rules[..|rules| - 1], n) then FirstAttrs(rules[..|rules| - 1], n)
    else rules[|rules| - 1].attrs
  }

  /** One rule for each name, holding all its sources and the attributes of the first. */
  ghost predicate MergesTo(input: seq<Rule>, output: seq<Rule>) {
    && UniqueNames(output)
    && (forall n :: HasName(output, n) <==> HasName(input, n))
    && forall i :: 0 <= i < |output| ==>
         && multiset(output[i].sources) == SourcesOf(input, output[i].name)
         && output[i].attrs == FirstAttrs(input, output[i].name)
  }

  lemma LastRule(rules: seq<Rule>, r: Rule, n: string)
    ensures HasName(rules + [r], n) <==> HasName(rules, n) || r.name == n
    ensures SourcesOf(rules + [r], n) == SourcesOf(rules, n) + if r.name == n then multiset(r.sources) else multiset{}
    ensures FirstAttrs(rules + [r], n) == if HasName(rules, n) then FirstAttrs(rules, n) else r.attrs
  {
    var all := rules + [r];
    assert all[..|all| - 1] == rules;
    if HasName(rules, n) {
      var i :| 0 <= i < |rules| && rules[i].name == n;
      assert all[i].name == n;
    }
    assert all[|rules|] == r;
  }

  lemma {:induction false} NoSources(rules: seq<Rule>, n: string)
    requires !HasName(rules, n)
    ensures SourcesOf(rules, n) == multiset{}
  {
    if rules != [] {
      assert rules == rules[..|rules| - 1] + [rules[|rules| - 1]];
      LastRule(rules[..|rules| - 1], rules[|rules| - 1], n);
      NoSources(rules[..|rules| - 1], n);
    }
  }

  lemma {:induction false} SourcesOfUnique(rules: seq<Rule>, i: nat)
    requires UniqueNames(rules) && i < |rules|
    ensures SourcesOf(rules, rules[i].name) == multiset(rules[i].sources)
    decreases |rules|
  {
    var last := |rules| - 1;
    if i < last {
      SourcesOfUnique(rules[..last], i);
      assert rules[last].name != rules[i].name;
    } else {
      NoSources(rules[..last], rules[i].name);
    }
  }

  /** Merging conserves, for every name, its sources with their number. */
  lemma MergeConservesSources(input: seq<Rule>, output: seq<Rule>, n: string)
    requires MergesTo(input, output)
    ensures SourcesOf(output, n) == SourcesOf(input, n)
  {
    if HasName(output, n) {
      var i :| 0 <= i < |output| && output[i].name == n;
      SourcesOfUnique(output, i);
    } else {
      NoSources(output, n);
      NoSources(input, n);
    }
  }

  // ================================================================ what the rules allow

  /** The rule list lets source s use name n. */
  ghost predicate Allows(rules: seq<Rule>, n: string, s: Source) {
    exists i :: 0 <= i < |rules| && rules[i].name == n && (rules[i].sources == [] || s in rules[i].sources)
  }

  ghost predicate Unconditional(rules: seq<Rule>, n: string) {
    exists i :: 0 <= i < |rules| && rules[i].name == n && rules[i].sources == []
  }

  ghost predicate Conditional(rules: seq<Rule>, n: string) {
    exists i :: 0 <= i < |rules| && rules[i].name == n && rules[i].sources != []
  }

  lemma {:induction false} SourcesMembers(rules: seq<Rule>, n: string, s: Source)
    ensures s in SourcesOf(rules, n) <==> exists i :: 0 <= i < |rules| && rules[i].name == n && s in rules[i].sources
  {
    if rules != [] {
      var last := |rules| - 1;
      SourcesMembers(rules[..last], n, s);
      if i :| 0 <= i < last && rules[..last][i].name == n && s in rules[..last][i].sources {
        assert rules[i].name == n;
      }
      if i :| 0 <= i < |rules| && rules[i].name == n && s in rules[i].sources {
        if i < last { assert rules[..last][i] == rules[i]; }
      }
    }
  }

  lemma {:induction false} ConditionalHasSources(rules: seq<Rule>, n: string)
    ensures Conditional(rules, n) <==> SourcesOf(rules, n) != multiset{}
  {
    if Conditional(rules, n) {
      var i :| 0 <= i < |rules| && rules[i].name == n && rules[i].sources != [];
      SourcesMembers(rules, n, rules[i].sources[0]);
    }
    if SourcesOf(rules, n) != multiset{} {
      var s :| s in SourcesOf(rules, n);
      SourcesMembers(rules, n, s);
    }
  }

  lemma AllowsIs(rules: seq<Rule>, n: string, s: Source)
    ensures Allows(rules, n, s) <==> Unconditional(rules, n) || s in SourcesOf(rules, n)
  {
    SourcesMembers(rules, n, s);
  }

  /** A merged rule is unconditional only if no rule of the name had a source. */
  lemma UnconditionalAfter(input: seq<Rule>, output: seq<Rule>, n: string)
    requires MergesTo(input, output)
    ensures Unconditional(output, n) <==> HasName(input, n) && SourcesOf(input, n) == multiset{}
  {
    if HasName(output, n) {
      var i :| 0 <= i < |output| && output[i].name == n;
      assert multiset(output[i].sources) == SourcesOf(input, n);
      assert output[i].sources == [] <==> |multiset(output[i].sources)| == 0;
      forall j | 0 <= j < |output| && output[j].name == n ensures j == i { assert i < j || j < i || i == j; }
    }
  }

  /** Merging never allows more than the rules did. */
  lemma MergeNeverWidens(input: seq<Rule>, output: seq<Rule>, n: string, s: Source)
    requires MergesTo(input, output) && Allows(output, n, s)
    ensures Allows(input, n, s)
  {
    AllowsIs(input, n, s);
    AllowsIs(output, n, s);
    MergeConservesSources(input, output, n);
    UnconditionalAfter(input, output, n);
    if Unconditional(output, n) {
      ConditionalHasSources(input, n);
      var i :| 0 <= i < |input| && input[i].name == n;
      assert input[i].sources == [];
    }
  }

  function LongerPath(ps: seq<Source>): string
    ensures forall s :: s in ps ==> |s.path| < |LongerPath(ps)|
  {
    if ps == [] then "" else
      var rest := LongerPath(ps[1..]);
      if |ps[0].path| < |rest| then rest else ps[0].path + "/"
  }

  lemma AnotherSource(sources: multiset<Source>) returns (s: Source)
    ensures s !in sources
  {
    var ps := ListOf(sources);
    s := Source(LongerPath(ps), "");
  }

  ghost function ListOf(m: multiset<Source>): (l: seq<Source>)
    ensures forall s :: s in l <==> s in m
    decreases |m|
  {
    if m == multiset{} then []
    else
      var s :| s in m;
      [s] + ListOf(m - multiset{s})
  }

  /** Exactly when merging leaves a name as usable as it was: unless an unconditional rule meets a
      conditional one. In that case the unconditional permission is lost. */
  lemma PermissionsKeptExactly(input: seq<Rule>, output: seq<Rule>, n: string)
    requires MergesTo(input, output)
    ensures (forall s :: Allows(output, n, s) <==> Allows(input, n, s)) <==>
            !(Unconditional(input, n) && Conditional(input, n))
  {
    MergeConservesSources(input, output, n);
    UnconditionalAfter(input, output, n);
    ConditionalHasSources(input, n);
    hide MergesTo, SourcesOf, Unconditional, Conditional, Allows;
    if Unconditional(input, n) && Conditional(input, n) {
      var s := AnotherSource(SourcesOf(input, n));
      AllowsIs(input, n, s);
      AllowsIs(output, n, s);
    } else {
      SomeRule(input, n);
      forall s ensures Allows(output, n, s) <==> Allows(input, n, s) {
        AllowsIs(input, n, s);
        AllowsIs(output, n, s);
      }
    }
  }

  lemma TwoOfOneName(a: Rule, b: Rule, x: string)
    requires a.name == b.name
    ensures SourcesOf([a, b], x) == if x == a.name then multiset(a.sources) + multiset(b.sources) else multiset{}
    ensures x == a.name ==> FirstAttrs([a, b], x) == a.attrs
    ensures HasName([a, b], x) <==> x == a.name
    ensures HasName([b], x) <==> x == a.name
  {
    LastRule([a], b, x);
    LastRule([], a, x);
    LastRule([], b, x);
    assert [a, b] == [a] + [b] && [a] == [] + [a] && [b] == [] + [b];
  }

  lemma SecondAbsorbsFirst(a: Rule, b: Rule)
    requires a.name == b.name && a.attrs == b.attrs && a.sources == []
    ensures MergesTo([a, b], [b])
  {
    forall x
      ensures HasName([a, b], x) <==> HasName([b], x)
      ensures x == b.name ==> SourcesOf([a, b], x) == multiset(b.sources) && FirstAttrs([a, b], x) == b.attrs
    {
      TwoOfOneName(a, b, x);
    }
    hide HasName, SourcesOf, FirstAttrs;
  }

  /** A shell that every process may run and, in a second rule, one source may run: after merging only the
      source may. */
  lemma UnconditionalIsLost(attrs: Attrs, s: Source, other: Source)
    requires s != other
    ensures var n := "/bin/sh";
      var input, output := [Rule(n, attrs, []), Rule(n, attrs, [s])], [Rule(n, attrs, [s])];
      MergesTo(input, output) && Allows(input, n, other) && !Allows(output, n, other)
  {
    var n := "/bin/sh";
    var a, b := Rule(n, attrs, []), Rule(n, attrs, [s]);
    SecondAbsorbsFirst(a, b);
    hide MergesTo;
    assert [a, b][0].sources == [];
  }

  lemma SomeRule(rules: seq<Rule>, n: string)
    ensures HasName(rules, n) <==> Unconditional(rules, n) || Conditional(rules, n)
  {
    if i :| 0 <= i < |rules| && rules[i].name == n {
      assert rules[i].sources == [] || rules[i].sources != [];
    }
  }

  // ================================================================ classes of policies

  ghost predicate HasMeta(pols: seq<Policy>, m: Meta) {
    exists i :: 0 <= i < |pols| && pols[i].meta == m
  }

  ghost predicate UniqueMetas(pols: seq<Policy>) {
    forall i, j :: 0 <= i < j < |pols| ==> pols[i].meta != pols[j].meta
  }

  /** All rules of one kind given for one class, in order. */
  ghost function InClass(pols: seq<Policy>, m: Meta, k: Kind): seq<Rule> {
    if pols == [] then []
    else
      var p := pols[|pols| - 1];
      InClass(pols[..|pols| - 1], m, k) + if p.meta == m then RulesOf(p, k) else []
  }

  /** One policy for each class, each of its rule lists merged from all rules given for the class. */
  ghost predicate ClassesMerged(pols: seq<Policy>, results: seq<Policy>) {
    && UniqueMetas(results)
    && (forall m :: HasMeta(results, m) <==> HasMeta(pols, m))
    && forall i, k :: 0 <= i < |results| ==> MergesTo(InClass(pols, results[i].meta, k), RulesOf(results[i], k))
  }

  lemma LastPolicy(pols: seq<Policy>, p: Policy, m: Meta, k: Kind)
    ensures HasMeta(pols + [p], m) <==> HasMeta(pols, m) || p.meta == m
    ensures InClass(pols + [p], m, k) == InClass(pols, m, k) + if p.meta == m then RulesOf(p, k) else []
  {
    var all := pols + [p];
    assert all[..|all| - 1] == pols;
    if HasMeta(pols, m) {
      var i :| 0 <= i < |pols| && pols[i].meta == m;
      assert all[i].meta == m;
    }
    assert all[|pols|] == p;
  }

  lemma {:induction false} NothingInClass(pols: seq<Policy>, m: Meta, k: Kind)
    requires !HasMeta(pols, m)
    ensures InClass(pols, m, k) == []
  {
    if pols != [] {
      assert pols == pols[..|pols| - 1] + [pols[|pols| - 1]];
      LastPolicy(pols[..|pols| - 1], pols[|pols| - 1], m, k);
      NothingInClass(pols[..|pols| - 1], m, k);
    }
  }

  lemma {:induction false} InUniqueClass(pols: seq<Policy>, i: nat, k: Kind)
    requires UniqueMetas(pols) && i < |pols|
    ensures InClass(pols, pols[i].meta, k) == RulesOf(pols[i], k)
    decreases |pols|
  {
    var last := |pols| - 1;
    if i < last {
      InUniqueClass(pols[..last], i, k);
      assert pols[last].meta != pols[i].meta;
    } else {
      NothingInClass(pols[..last], pols[i].meta, k);
    }
  }

  /** Conservation: for every class, kind and name the sources are the same, each as often as before. */
  lemma PoliciesConserveSources(pols: seq<Policy>, results: seq<Policy>, m: Meta, k: Kind, n: string)
    requires ClassesMerged(pols, results)
    ensures SourcesOf(InClass(results, m, k), n) == SourcesOf(InClass(pols, m, k), n)
    ensures HasName(InClass(results, m, k), n) <==> HasName(InClass(pols, m, k), n)
  {
    if HasMeta(results, m) {
      var i :| 0 <= i < |results| && results[i].meta == m;
      InUniqueClass(results, i, k);
      MergeConservesSources(InClass(pols, m, k), RulesOf(results[i], k), n);
    } else {
      NothingInClass(results, m, k);
      NothingInClass(pols, m, k);
    }
  }

  // ================================================================ order

  /** The text the rules are sorted by: the name and the paths of the sources. */
  function PathsOf(sources: seq<Source>): string {
    if sources == [] then "" else sources[0].path + PathsOf(sources[1..])
  }

  function RuleKey(r: Rule): string { r.name + PathsOf(r.sources) }

  /** The text is the name, then the path of each source in turn. */
  lemma {:induction false} KeyText(name: string, attrs: Attrs, sources: seq<Source>, s: Source)
    ensures RuleKey(Rule(name, attrs, [])) == name
    ensures RuleKey(Rule(name, attrs, sources + [s])) == RuleKey(Rule(name, attrs, sources)) + s.path
  {
    if sources == [] {
      assert [] + [s] == [s] && [s][1..] == [];
      assert PathsOf([s]) == s.path + "" == s.path;
    } else {
      assert (sources + [s])[0] == sources[0] && (sources + [s])[1..] == sources[1..] + [s];
      KeyText(name, attrs, sources[1..], s);
      PathsAppend(name, sources[1..], s);
    }
  }

  lemma PathsAppend(name: string, rest: seq<Source>, s: Source)
    requires name + PathsOf(rest + [s]) == name + PathsOf(rest) + s.path
    ensures PathsOf(rest + [s]) == PathsOf(rest) + s.path
  {
    assert PathsOf(rest + [s]) == (name + PathsOf(rest + [s]))[|name|..];
    assert PathsOf(rest) + s.path == (name + PathsOf(rest) + s.path)[|name|..];
  }

  function SourceKey(s: Source): string { s.path + s.dir }

  /** Sources are ordered by their path followed by their directory. */
  lemma SourcesByText(sources: seq<Source>, i: nat, j: nat)
    requires KeyOrdered(sources, SourceKey) && i < j < |sources|
    ensures var x, y := sources[i], sources[j];
      x.path + x.dir == y.path + y.dir || LexLess(x.path + x.dir, y.path + y.dir)
  {
    LexTotal(SourceKey(sources[i]), SourceKey(sources[j]));
  }

  ghost predicate SourcesSorted(rules: seq<Rule>) {
    forall i :: 0 <= i < |rules| ==> KeyOrdered(rules[i].sources, SourceKey)
  }

  ghost predicate AtMostOneSource(rules: seq<Rule>) {
    forall i :: 0 <= i < |rules| ==> |rules[i].sources| <= 1
  }

  /** Rules of one name have the same attributes, and no two different sources the same key. */
  ghost predicate Consistent(rules: seq<Rule>) {
    && (forall i, j :: 0 <= i < |rules| && 0 <= j < |rules| && rules[i].name == rules[j].name ==>
          rules[i].attrs == rules[j].attrs)
    && forall i, j, x, y :: 0 <= i < |rules| && 0 <= j < |rules| && x in rules[i].sources && y in rules[j].sources ==>
         (SourceKey(x) == SourceKey(y) ==> x == y)
  }

  lemma {:induction false} SourcesOfPermutation(a: seq<Rule>, b: seq<Rule>, n: string)
    requires multiset(a) == multiset(b)
    ensures SourcesOf(a, n) == SourcesOf(b, n)
    decreases |a|
  {
    SameCount(a, b);
    if a != [] {
      var last := |a| - 1;
      var r := a[last];
      assert r in multiset(b);
      var j :| 0 <= j < |b| && b[j] == r;
      RemoveAt(b, j);
      assert a == a[..last] + [r];
      assert multiset(a[..last]) == multiset(a) - multiset{r};
      SourcesOfPermutation(a[..last], b[..j] + b[j + 1..], n);
      SourcesWithout(b, j, n);
    }
  }

  lemma RemoveAt<T>(b: seq<T>, j: nat)
    requires j < |b|
    ensures multiset(b[..j] + b[j + 1..]) == multiset(b) - multiset{b[j]}
  {
    assert b == b[..j] + [b[j]] + b[j + 1..];
  }

  lemma SplitLast<T>(a: seq<T>, b: seq<T>)
    requires b != []
    ensures a + b == (a + b[..|b| - 1]) + [b[|b| - 1]] && b == b[..|b| - 1] + [b[|b| - 1]]
  {
  }

  lemma {:induction false} SourcesAppend(a: seq<Rule>, b: seq<Rule>, n: string)
    ensures SourcesOf(a + b, n) == SourcesOf(a, n) + SourcesOf(b, n)
    decreases |b|
  {
    if b == [] {
      assert a + b == a;
    } else {
      hide SourcesOf, HasName, FirstAttrs;
      var last := |b| - 1;
      SourcesAppend(a, b[..last], n);
      SplitLast(a, b);
      LastRule(a + b[..last], b[last], n);
      LastRule(b[..last], b[last], n);
    }
  }

  lemma SourcesWithout(b: seq<Rule>, j: nat, n: string)
    requires j < |b|
    ensures SourcesOf(b, n) ==
            SourcesOf(b[..j] + b[j + 1..], n) + if b[j].name == n then multiset(b[j].sources) else multiset{}
  {
    assert b == b[..j] + [b[j]] + b[j + 1..];
    SourcesAppend(b[..j] + [b[j]], b[j + 1..], n);
    LastRule(b[..j], b[j], n);
    SourcesAppend(b[..j], b[j + 1..], n);
  }

  lemma {:induction false} FirstAttrsOf(rules: seq<Rule>, i: nat)
    requires Consistent(rules) && i < |rules|
    ensures FirstAttrs(rules, rules[i].name) == rules[i].attrs
    decreases |rules|
  {
    var last, n := |rules| - 1, rules[i].name;
    if HasName(rules[..last], n) {
      var j :| 0 <= j < last && rules[..last][j].name == n;
      assert rules[j].name == n;
      FirstAttrsOf(rules[..last], j);
    } else {
      assert forall j :: 0 <= j < last ==> rules[..last][j].name != n;
    }
  }

  lemma NamedIn(rules: seq<Rule>, other: seq<Rule>, n: string) returns (i: nat, j: nat)
    requires multiset(rules) == multiset(other) && HasName(rules, n)
    ensures i < |rules| && j < |other| && rules[i] == other[j] && rules[i].name == n
  {
    i :| 0 <= i < |rules| && rules[i].name == n;
    assert rules[i] in multiset(other);
    j :| 0 <= j < |other| && other[j] == rules[i];
  }

  /** Equal inputs up to order give the same merged rule for a name. */
  lemma SameMergedRule(a: seq<Rule>, b: seq<Rule>, outA: seq<Rule>, outB: seq<Rule>, i: nat, j: nat)
    requires multiset(a) == multiset(b) && Consistent(a) && Consistent(b)
    requires MergesTo(a, outA) && MergesTo(b, outB) && SourcesSorted(outA) && SourcesSorted(outB)
    requires i < |outA| && j < |outB| && outA[i].name == outB[j].name
    ensures outA[i] == outB[j]
  {
    var n := outA[i].name;
    assert HasName(outA, n);
    var x, y := NamedIn(a, b, n);
    FirstAttrsOf(a, x);
    FirstAttrsOf(b, y);
    SourcesOfPermutation(a, b, n);
    KeysTellApart(a, outA, i);
    OrderedListsAgree(outA[i].sources, outB[j].sources, SourceKey);
  }

  lemma KeysTellApart(a: seq<Rule>, outA: seq<Rule>, i: nat)
    requires Consistent(a) && MergesTo(a, outA) && i < |outA|
    ensures KeyDistinguishes(outA[i].sources, SourceKey)
  {
    var sources := outA[i].sources;
    forall x, y | x in sources && y in sources && SourceKey(x) == SourceKey(y) ensures x == y {
      assert x in multiset(sources) && y in multiset(sources);
      SourcesMembers(a, outA[i].name, x);
      SourcesMembers(a, outA[i].name, y);
    }
  }

  lemma SameMergedNames(a: seq<Rule>, b: seq<Rule>, outA: seq<Rule>, outB: seq<Rule>, r: Rule)
    requires multiset(a) == multiset(b) && Consistent(a) && Consistent(b)
    requires MergesTo(a, outA) && MergesTo(b, outB) && SourcesSorted(outA) && SourcesSorted(outB) && r in outA
    ensures r in outB
  {
    var i :| 0 <= i < |outA| && outA[i] == r;
    assert HasName(outA, r.name);
    var x, y := NamedIn(a, b, r.name);
    assert HasName(b, r.name);
    var j :| 0 <= j < |outB| && outB[j].name == r.name;
    SameMergedRule(a, b, outA, outB, i, j);
  }

  lemma UniqueNamesDistinct(rules: seq<Rule>)
    requires UniqueNames(rules)
    ensures NoDuplicates(rules)
  {
  }

  /** The merged and sorted rule list does not depend on the order of the input. */
  lemma RuleListsAgree(a: seq<Rule>, b: seq<Rule>, outA: seq<Rule>, outB: seq<Rule>)
    requires multiset(a) == multiset(b) && Consistent(a) && Consistent(b)
    requires MergesTo(a, outA) && MergesTo(b, outB) && SourcesSorted(outA) && SourcesSorted(outB)
    requires KeyOrdered(outA, RuleKey) && KeyOrdered(outB, RuleKey) && KeyDistinguishes(outA, RuleKey)
    ensures outA == outB
  {
    UniqueNamesDistinct(outA);
    UniqueNamesDistinct(outB);
    forall r ensures r in outA <==> r in outB {
      if r in outA { SameMergedNames(a, b, outA, outB, r); }
      if r in outB { SameMergedNames(b, a, outB, outA, r); }
    }
    DistinctSameMembers(outA, outB);
    OrderedListsAgree(outA, outB, RuleKey);
  }

  lemma {:induction false} ClassOfPermutation(a: seq<Policy>, b: seq<Policy>, m: Meta, k: Kind)
    requires multiset(a) == multiset(b)
    ensures multiset(InClass(a, m, k)) == multiset(InClass(b, m, k))
    decreases |a|
  {
    SameCount(a, b);
    if a != [] {
      var last := |a| - 1;
      var p := a[last];
      assert p in multiset(b);
      var j :| 0 <= j < |b| && b[j] == p;
      RemoveAt(b, j);
      assert a == a[..last] + [p];
      assert multiset(a[..last]) == multiset(a) - multiset{p};
      ClassOfPermutation(a[..last], b[..j] + b[j + 1..], m, k);
      ClassWithout(b, j, m, k);
    }
  }

  lemma {:induction false} ClassAppend(a: seq<Policy>, b: seq<Policy>, m: Meta, k: Kind)
    ensures InClass(a + b, m, k) == InClass(a, m, k) + InClass(b, m, k)
    decreases |b|
  {
    if b == [] {
      assert a + b == a;
    } else {
      hide InClass, HasMeta, RulesOf;
      var last := |b| - 1;
      ClassAppend(a, b[..last], m, k);
      SplitLast(a, b);
      LastPolicy(a + b[..last], b[last], m, k);
      LastPolicy(b[..last], b[last], m, k);
    }
  }

  lemma ClassWithout(b: seq<Policy>, j: nat, m: Meta, k: Kind)
    requires j < |b|
    ensures multiset(InClass(b, m, k)) ==
      multiset(InClass(b[..j] + b[j + 1..], m, k)) + multiset(if b[j].meta == m then RulesOf(b[j], k) else [])
  {
    assert b == b[..j] + [b[j]] + b[j + 1..];
    ClassAppend(b[..j] + [b[j]], b[j + 1..], m, k);
    LastPolicy(b[..j], b[j], m, k);
    ClassAppend(b[..j], b[j + 1..], m, k);
  }

  ghost predicate RulesSorted(pols: seq<Policy>) {
    forall i, k :: 0 <= i < |pols| ==> KeyOrdered(RulesOf(pols[i], k), RuleKey)
  }

  ghost predicate AllSourcesSorted(pols: seq<Policy>) {
    forall i, k :: 0 <= i < |pols| ==> SourcesSorted(RulesOf(pols[i], k))
  }

  lemma {:induction false} ConsistentPermutation(a: seq<Rule>, b: seq<Rule>)
    requires multiset(a) == multiset(b) && Consistent(a)
    ensures Consistent(b)
  {
    forall r | r in b ensures r in a { assert r in multiset(b); }
    forall i | 0 <= i < |b| ensures b[i] in a {}
  }

  /** The merged policies do not depend on the order of the input: a class gets the same rule lists. */
  lemma MergedPoliciesAgree(a: seq<Policy>, b: seq<Policy>, ra: seq<Policy>, rb: seq<Policy>, i: nat, j: nat, k: Kind)
    requires multiset(a) == multiset(b) && ClassesMerged(a, ra) && ClassesMerged(b, rb)
    requires RulesSorted(ra) && RulesSorted(rb) && AllSourcesSorted(ra) && AllSourcesSorted(rb)
    requires i < |ra| && j < |rb| && ra[i].meta == rb[j].meta
    requires Consistent(InClass(a, ra[i].meta, k)) && KeyDistinguishes(RulesOf(ra[i], k), RuleKey)
    ensures RulesOf(ra[i], k) == RulesOf(rb[j], k)
  {
    var m := ra[i].meta;
    ClassOfPermutation(a, b, m, k);
    ConsistentPermutation(InClass(a, m, k), InClass(b, m, k));
    RuleListsAgree(InClass(a, m, k), InClass(b, m, k), RulesOf(ra[i], k), RulesOf(rb[j], k));
  }
}
