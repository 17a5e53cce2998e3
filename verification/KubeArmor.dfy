/** Translation of system policies to KubeArmor policies, and the extraction of Kubernetes policies
    from them: after both, file rules hold for every process and every process may be read. */
module KubeArmor {
  import opened Paths
  import opened SysPolicies

  const KIND_POLICY: string := "KubeArmorPolicy"
  const KIND_HOST_POLICY: string := "KubeArmorHostPolicy"
  const VM_NAMESPACE: string := "accuknox-vm-namespace"
  const PRECONFIGURED_DIR: string := "/lib/x86_64-linux-gnu/"

  /** A system policy to translate: its kind and action, and the rest. */
  datatype KnoxPolicy = KnoxPolicy(kind: string, action: string, policy: Policy)

  datatype KubeArmorPolicy = KubeArmorPolicy(kind: string, namespace: string, action: string, spec: Policy)

  // ================================================================ lists without repetition

  /** The first occurrences, in order. */
  function Firsts(s: seq<string>): seq<string> {
    if s == [] then []
    else
      var init, x := Firsts(s[..|s| - 1]), s[|s| - 1];
      if x in init then init else init + [x]
  }

  lemma {:induction false} FirstsDistinct(s: seq<string>)
    ensures NoDuplicates(Firsts(s)) && forall x :: x in Firsts(s) <==> x in s
  {
    if s != [] {
      FirstsDistinct(s[..|s| - 1]);
      assert s == s[..|s| - 1] + [s[|s| - 1]];
    }
  }

  method StringDeDuplication(strSlice: seq<string>) returns (list: seq<string>)
    ensures list == Firsts(strSlice)
  {
    var keys: set<string> := {};
    list := [];
    for i := 0 to |strSlice|
      invariant list == Firsts(strSlice[..i]) && forall x :: x in keys <==> x in list
    {
      assert strSlice[..i + 1][..i] == strSlice[..i];
      if strSlice[i] !in keys {
        keys, list := keys + {strSlice[i]}, list + [strSlice[i]];
      }
    }
    assert strSlice[..|strSlice|] == strSlice;
  }

  // ================================================================ translation

  function NamesOf(rules: seq<Rule>): seq<string> {
    if rules == [] then [] else NamesOf(rules[..|rules| - 1]) + [rules[|rules| - 1].name]
  }

  lemma {:induction false} NamesOfMembers(rules: seq<Rule>, n: string)
    ensures n in NamesOf(rules) <==> HasName(rules, n)
    ensures |NamesOf(rules)| == |rules|
  {
    if rules != [] {
      var init, r := rules[..|rules| - 1], rules[|rules| - 1];
      NamesOfMembers(init, n);
      assert rules == init + [r];
      LastRule(init, r, n);
    }
  }

  function PathsOfSources(sources: seq<Source>): seq<string> {
    if sources == [] then [] else PathsOfSources(sources[..|sources| - 1]) + [sources[|sources| - 1].path]
  }

  /** The paths of all sources of the rules, in order. */
  function SourcePaths(rules: seq<Rule>): seq<string> {
    if rules == [] then [] else SourcePaths(rules[..|rules| - 1]) + PathsOfSources(rules[|rules| - 1].sources)
  }

  lemma {:induction false} PathsOfSourcesMembers(sources: seq<Source>, x: string)
    ensures x in PathsOfSources(sources) <==> exists s :: s in sources && s.path == x
  {
    if sources != [] {
      PathsOfSourcesMembers(sources[..|sources| - 1], x);
      assert sources == sources[..|sources| - 1] + [sources[|sources| - 1]];
    }
  }

  ghost predicate SourceIn(rules: seq<Rule>, x: string) {
    exists i, s :: 0 <= i < |rules| && s in rules[i].sources && s.path == x
  }

  lemma SourceInLast(rules: seq<Rule>, x: string)
    requires rules != []
    ensures SourceIn(rules, x) <==>
      SourceIn(rules[..|rules| - 1], x) || exists s :: s in rules[|rules| - 1].sources && s.path == x
  {
    var last := |rules| - 1;
    if SourceIn(rules[..last], x) {
      var i, s :| 0 <= i < last && s in rules[..last][i].sources && s.path == x;
      assert s in rules[i].sources;
    }
    if SourceIn(rules, x) {
      var i, s :| 0 <= i < |rules| && s in rules[i].sources && s.path == x;
      if i < last { assert s in rules[..last][i].sources; }
    }
  }

  lemma {:induction false} SourcePathsMembers(rules: seq<Rule>, x: string)
    ensures x in SourcePaths(rules) <==> SourceIn(rules, x)
  {
    if rules != [] {
      var last := |rules| - 1;
      SourcePathsMembers(rules[..last], x);
      PathsOfSourcesMembers(rules[last].sources, x);
      SourceInLast(rules, x);
      hide SourceIn;
    }
  }

  function PlainRule(path: string, readOnly: bool): Rule {
    Rule(path, Attrs(readOnly, false, false), [])
  }

  function PlainRules(paths: seq<string>, readOnly: bool): seq<Rule> {
    if paths == [] then [] else PlainRules(paths[..|paths| - 1], readOnly) + [PlainRule(paths[|paths| - 1], readOnly)]
  }

  lemma {:induction false} PlainRulesAt(paths: seq<string>, readOnly: bool)
    ensures |PlainRules(paths, readOnly)| == |paths|
    ensures forall i :: 0 <= i < |paths| ==> PlainRules(paths, readOnly)[i] == PlainRule(paths[i], readOnly)
  {
    if paths != [] { PlainRulesAt(paths[..|paths| - 1], readOnly); }
  }

  const SYSTEM_DIR_RULE := Rule(PRECONFIGURED_DIR, Attrs(false, false, true), [])

  /** Every binary that a file rule names as a source has a process rule. */
  ghost predicate Closed(p: Policy) {
    forall x :: SourceIn(p.filePaths, x) || SourceIn(p.fileDirs, x) ==> HasName(p.processPaths, x)
  }

  /** The translated spec: allow policies get the system directory, and the process list is extended by
      exactly the missing source binaries, each once and for every process. */
  ghost predicate Translated(k: KnoxPolicy, r: KubeArmorPolicy) {
    var p := k.policy;
    && r.kind == (if p.meta.namespace == "accuknox-vm-namespace" then "KubeArmorHostPolicy" else "KubeArmorPolicy")
    && r.namespace == (if k.kind != "KubeArmorHostPolicy" then p.meta.namespace else "")
    && r.action == k.action
    && r.spec.fileDirs == p.fileDirs + (if r.kind == "KubeArmorPolicy" && k.action == "Allow" then
                                          [Rule("/lib/x86_64-linux-gnu/", Attrs(false, false, true), [])] else [])
    && r.spec == p.(fileDirs := r.spec.fileDirs, processPaths := r.spec.processPaths)
    && exists added :: ExtendsBy(p, added, r.spec.processPaths)
  }

  ghost predicate ExtendsBy(p: Policy, added: seq<string>, processPaths: seq<Rule>) {
    && processPaths == p.processPaths + PlainRules(added, false)
    && (forall j :: 0 <= j < |added| ==>
          |p.processPaths| + j < |processPaths|
          && processPaths[|p.processPaths| + j] == Rule(added[j], Attrs(false, false, false), []))
    && NoDuplicates(added)
    && forall x :: x in added <==> (SourceIn(p.filePaths, x) || SourceIn(p.fileDirs, x)) && !HasName(p.processPaths, x)
  }

  lemma SystemDirHasNoSource(dirs: seq<Rule>, x: string)
    ensures SourceIn(dirs + [SYSTEM_DIR_RULE], x) <==> SourceIn(dirs, x)
  {
    if SourceIn(dirs, x) {
      var i, s :| 0 <= i < |dirs| && s in dirs[i].sources && s.path == x;
      assert s in (dirs + [SYSTEM_DIR_RULE])[i].sources;
    }
  }

  /** Translation closes the process list over the sources of the file rules. */
  lemma TranslatedIsClosed(k: KnoxPolicy, r: KubeArmorPolicy)
    requires Translated(k, r)
    ensures Closed(r.spec)
    ensures forall n :: HasName(k.policy.processPaths, n) ==> HasName(r.spec.processPaths, n)
  {
    var p := k.policy;
    var added :| ExtendsBy(p, added, r.spec.processPaths);
    assert p.fileDirs + [] == p.fileDirs;
    hide PlainRules;
    forall x | HasName(p.processPaths, x) || x in added ensures HasName(r.spec.processPaths, x) {
      ExtendedHas(p, added, r.spec.processPaths, x);
    }
    hide SourceIn, HasName;
    forall x { SystemDirHasNoSource(p.fileDirs, x); }
  }

  lemma ExtendedHas(p: Policy, added: seq<string>, processPaths: seq<Rule>, x: string)
    requires ExtendsBy(p, added, processPaths) && (HasName(p.processPaths, x) || x in added)
    ensures HasName(processPaths, x)
  {
    if HasName(p.processPaths, x) {
      var i :| 0 <= i < |p.processPaths| && p.processPaths[i].name == x;
      assert processPaths[i].name == x;
    } else {
      var i :| 0 <= i < |added| && added[i] == x;
      assert processPaths[|p.processPaths| + i].name == x;
    }
  }

  method GenerateProcessPaths(fromSrc: seq<Source>) returns (processPaths: seq<string>)
    ensures processPaths == PathsOfSources(fromSrc)
  {
    processPaths := [];
    for i := 0 to |fromSrc|
      invariant processPaths == PathsOfSources(fromSrc[..i])
    {
      assert fromSrc[..i + 1][..i] == fromSrc[..i];
      processPaths := processPaths + [fromSrc[i].path];
    }
    assert fromSrc[..|fromSrc|] == fromSrc;
  }

  method CollectSources(rules: seq<Rule>, start: seq<string>) returns (paths: seq<string>)
    ensures paths == start + SourcePaths(rules)
  {
    paths := start;
    for i := 0 to |rules|
      invariant paths == start + SourcePaths(rules[..i])
    {
      assert rules[..i + 1][..i] == rules[..i];
      var more := GenerateProcessPaths(rules[i].sources);
      paths := paths + more;
    }
    assert rules[..|rules|] == rules;
  }

  method CollectNames(rules: seq<Rule>) returns (names: seq<string>)
    ensures names == NamesOf(rules)
  {
    names := [];
    for i := 0 to |rules|
      invariant names == NamesOf(rules[..i])
    {
      assert rules[..i + 1][..i] == rules[..i];
      names := names + [rules[i].name];
    }
    assert rules[..|rules|] == rules;
  }

  /** The files that are not among the processes, in order. */
  method MissingPaths(files: seq<string>, procs: seq<string>) returns (missing: seq<string>)
    ensures forall x :: x in missing <==> x in files && x !in procs
  {
    missing := [];
    for i := 0 to |files|
      invariant forall x :: x in missing <==> x in files[..i] && x !in procs
    {
      assert files[..i + 1] == files[..i] + [files[i]];
      var isPathExist := false;
      for j := 0 to |procs|
        invariant isPathExist <==> files[i] in procs[..j]
      {
        assert procs[..j + 1] == procs[..j] + [procs[j]];
        if procs[j] == files[i] {
          isPathExist := true;
        }
      }
      assert procs[..|procs|] == procs;
      if !isPathExist {
        missing := missing + [files[i]];
      }
    }
    assert files[..|files|] == files;
  }

  method AppendPlain(rules: seq<Rule>, paths: seq<string>, readOnly: bool) returns (r: seq<Rule>)
    ensures r == rules + PlainRules(paths, readOnly)
  {
    r := rules;
    for i := 0 to |paths|
      invariant r == rules + PlainRules(paths[..i], readOnly)
    {
      assert paths[..i + 1][..i] == paths[..i];
      r := r + [PlainRule(paths[i], readOnly)];
    }
    assert paths[..|paths|] == paths;
  }

  /** Translates one policy. */
  method ConvertPolicy(k: KnoxPolicy) returns (r: KubeArmorPolicy)
    ensures Translated(k, r)
  {
    var p := k.policy;
    var kind := if p.meta.namespace == VM_NAMESPACE then KIND_HOST_POLICY else KIND_POLICY;
    var namespace := if k.kind != KIND_HOST_POLICY then p.meta.namespace else "";
    var fileDirs := p.fileDirs;
    if kind == KIND_POLICY && k.action == "Allow" {
      fileDirs := fileDirs + [SYSTEM_DIR_RULE];
    }
    var processPaths := CollectNames(p.processPaths);
    var filePathsFromSrc := CollectSources(p.filePaths, []);
    filePathsFromSrc := CollectSources(fileDirs, filePathsFromSrc);
    ghost var all := filePathsFromSrc;
    filePathsFromSrc := StringDeDuplication(filePathsFromSrc);
    FirstsDistinct(all);
    var procPaths := StringDeDuplication(processPaths);
    FirstsDistinct(processPaths);
    var missing := MissingPaths(filePathsFromSrc, procPaths);
    var resPath := StringDeDuplication(missing);
    FirstsDistinct(missing);
    var extended := AppendPlain(p.processPaths, resPath, false);
    AddedAre(p, fileDirs, all, resPath);
    assert p.fileDirs + [] == p.fileDirs;
    ExtendsByAdded(p, resPath);
    hide ExtendsBy, Firsts, PlainRules;
    assert ExtendsBy(p, resPath, extended);
    r := KubeArmorPolicy(kind, namespace, k.action, p.(fileDirs := fileDirs, processPaths := extended));
  }

  lemma ExtendsByAdded(p: Policy, added: seq<string>)
    requires NoDuplicates(added)
    requires forall x :: x in added <==>
      (SourceIn(p.filePaths, x) || SourceIn(p.fileDirs, x)) && !HasName(p.processPaths, x)
    ensures ExtendsBy(p, added, p.processPaths + PlainRules(added, false))
  {
    PlainRulesAt(added, false);
    hide SourceIn, HasName, PlainRules;
  }

  lemma AddedAre(p: Policy, fileDirs: seq<Rule>, all: seq<string>, added: seq<string>)
    requires fileDirs == p.fileDirs || fileDirs == p.fileDirs + [SYSTEM_DIR_RULE]
    requires all == [] + SourcePaths(p.filePaths) + SourcePaths(fileDirs)
    requires forall x :: x in added <==> x in all && x !in NamesOf(p.processPaths)
    ensures forall x :: x in added <==>
      (SourceIn(p.filePaths, x) || SourceIn(p.fileDirs, x)) && !HasName(p.processPaths, x)
  {
    forall x
      ensures x in added <==> (SourceIn(p.filePaths, x) || SourceIn(p.fileDirs, x)) && !HasName(p.processPaths, x)
    {
      SourcePathsMembers(p.filePaths, x);
      SourcePathsMembers(fileDirs, x);
      SystemDirHasNoSource(p.fileDirs, x);
      NamesOfMembers(p.processPaths, x);
    }
  }

  method ConvertAll(knoxPolicies: seq<KnoxPolicy>) returns (results: seq<KubeArmorPolicy>)
    ensures |results| == |knoxPolicies| && forall i :: 0 <= i < |results| ==> Translated(knoxPolicies[i], results[i])
  {
    results := [];
    for i := 0 to |knoxPolicies|
      invariant |results| == i && forall k :: 0 <= k < i ==> Translated(knoxPolicies[k], results[k])
    {
      var kubePolicy := ConvertPolicy(knoxPolicies[i]);
      results := results + [kubePolicy];
    }
  }

  // ================================================================ extraction for Kubernetes

  /** The rules, all made to hold for every process. */
  ghost predicate AllCleared(before: seq<Rule>, after: seq<Rule>) {
    |after| == |before| && forall i :: 0 <= i < |before| ==> after[i] == before[i].(sources := [])
  }

  ghost predicate UsedBy(r: Rule, binaries: seq<string>) {
    exists s :: s in r.sources && s.path in binaries
  }

  /** The rules, those that any of the binaries may use made to hold for every process. */
  ghost predicate UsedCleared(before: seq<Rule>, after: seq<Rule>, binaries: seq<string>) {
    && |after| == |before|
    && forall i :: 0 <= i < |before| ==>
      after[i] == if UsedBy(before[i], binaries) then before[i].(sources := []) else before[i]
  }

  method ClearAll(rules: seq<Rule>) returns (r: seq<Rule>)
    ensures AllCleared(rules, r)
  {
    r := rules;
    for i := 0 to |rules|
      invariant |r| == |rules| && forall k :: i <= k < |rules| ==> r[k] == rules[k]
      invariant forall k :: 0 <= k < i ==> r[k] == rules[k].(sources := [])
    {
      if |r[i].sources| != 0 {
        r := r[i := r[i].(sources := [])];
      }
    }
  }

  /** Rules that any of the binaries may use hold for every process. */
  method ClearUsed(rules: seq<Rule>, binaries: seq<string>) returns (r: seq<Rule>)
    ensures UsedCleared(rules, r, binaries)
  {
    r := rules;
    for i := 0 to |rules|
      invariant |r| == |rules| && forall k :: i <= k < |rules| ==> r[k] == rules[k]
      invariant forall k :: 0 <= k < i ==>
        r[k] == if UsedBy(rules[k], binaries) then rules[k].(sources := []) else rules[k]
    {
      var sources := rules[i].sources;
      for j := 0 to |sources|
        invariant r[i] == rules[i] && forall k :: 0 <= k < j ==> sources[k].path !in binaries
        invariant |r| == |rules| && forall k :: i <= k < |rules| ==> r[k] == rules[k]
        invariant forall k :: 0 <= k < i ==>
          r[k] == if UsedBy(rules[k], binaries) then rules[k].(sources := []) else rules[k]
      {
        if sources[j].path in binaries {
          assert UsedBy(rules[i], binaries) by { assert sources[j] in rules[i].sources; }
          r := r[i := r[i].(sources := [])];
          break;
        }
      }
    }
  }

  ghost predicate NoSources(rules: seq<Rule>) {
    forall i :: 0 <= i < |rules| ==> rules[i].sources == []
  }

  /** What the extraction leaves of a translated policy: the rules without their sources, the distinct
      process paths as read-only files behind the file rules, and all else as it was. Network rules stay if
      they are wanted, without their sources if one of those is a process. */
  ghost predicate Extracted(before: Policy, after: Policy, includeNetwork: bool) {
    var binaries := Firsts(NamesOf(before.processPaths));
    && after.meta == before.meta && after.other == before.other
    && AllCleared(before.processPaths, after.processPaths) && AllCleared(before.processDirs, after.processDirs)
    && AllCleared(before.fileDirs, after.fileDirs)
    && |after.filePaths| == |before.filePaths| + |binaries|
    && AllCleared(before.filePaths, after.filePaths[..|before.filePaths|])
    && (forall j :: 0 <= j < |binaries| ==>
          after.filePaths[|before.filePaths| + j] == Rule(binaries[j], Attrs(true, false, false), []))
    && UsedCleared(if includeNetwork then before.protocols else [], after.protocols, binaries)
  }

  /** In the words of the promise: no file or process rule names a source, their names are kept, and every
      allowed process path is also a read-only file. */
  lemma ExtractedIsGlobal(before: Policy, after: Policy, includeNetwork: bool)
    requires Extracted(before, after, includeNetwork)
    ensures NoSources(after.processPaths) && NoSources(after.processDirs)
    ensures NoSources(after.filePaths) && NoSources(after.fileDirs)
    ensures NamesOf(after.processPaths) == NamesOf(before.processPaths)
    ensures NamesOf(after.processDirs) == NamesOf(before.processDirs)
    ensures NamesOf(after.fileDirs) == NamesOf(before.fileDirs)
    ensures forall n :: HasName(after.processPaths, n) ==>
      exists i :: 0 <= i < |after.filePaths| && after.filePaths[i] == Rule(n, Attrs(true, false, false), [])
  {
    AllClearedNames(before.processPaths, after.processPaths);
    AllClearedNames(before.processDirs, after.processDirs);
    AllClearedNames(before.fileDirs, after.fileDirs);
    var n, binaries := |before.filePaths|, Firsts(NamesOf(before.processPaths));
    FirstsDistinct(NamesOf(before.processPaths));
    hide NamesOf, Firsts, UsedCleared;
    forall i | 0 <= i < |after.filePaths| ensures after.filePaths[i].sources == [] {
      if i < n {
        assert after.filePaths[..n][i] == before.filePaths[i].(sources := []);
      } else {
        var j := i - n;
        assert after.filePaths[n + j] == Rule(binaries[j], Attrs(true, false, false), []);
      }
    }
    hide AllCleared;
    forall x | HasName(after.processPaths, x)
      ensures exists i :: 0 <= i < |after.filePaths| && after.filePaths[i] == Rule(x, Attrs(true, false, false), [])
    {
      NamesOfMembers(after.processPaths, x);
      var j :| 0 <= j < |binaries| && binaries[j] == x;
      assert after.filePaths[n + j] == Rule(x, Attrs(true, false, false), []);
    }
  }

  lemma {:induction false} SameNames(before: seq<Rule>, after: seq<Rule>)
    requires |after| == |before| && forall i :: 0 <= i < |before| ==> after[i].name == before[i].name
    ensures NamesOf(after) == NamesOf(before)
  {
    if before != [] { SameNames(before[..|before| - 1], after[..|after| - 1]); }
  }

  lemma UsedIsAll(rules: seq<Rule>, after: seq<Rule>, binaries: seq<string>)
    requires UsedCleared(rules, after, binaries)
    requires forall x :: SourceIn(rules, x) ==> x in binaries
    ensures AllCleared(rules, after)
  {
    forall i | 0 <= i < |after| ensures after[i] == rules[i].(sources := []) {
      if rules[i].sources != [] {
        var s := rules[i].sources[0];
        assert s in rules[i].sources;
        assert SourceIn(rules, s.path);
        assert UsedBy(rules[i], binaries);
      }
    }
  }

  lemma {:induction false} AppendedSources(a: seq<Rule>, paths: seq<string>, x: string)
    ensures SourceIn(a + PlainRules(paths, true), x) ==> SourceIn(a, x)
  {
    PlainRulesAt(paths, true);
    var all := a + PlainRules(paths, true);
    if SourceIn(all, x) {
      var i, s :| 0 <= i < |all| && s in all[i].sources && s.path == x;
      assert forall j :: |a| <= j < |all| ==> all[j] == PlainRules(paths, true)[j - |a|] && all[j].sources == [];
      assert i < |a| && s in a[i].sources;
    }
  }

  /** Makes the processes global, lets all of them be read, and drops the sources they cover. */
  method ExtractPolicy(pol: Policy, includeNetwork: bool) returns (result: Policy)
    requires Closed(pol)
    ensures Extracted(pol, result, includeNetwork)
  {
    hide AllCleared, UsedCleared, Closed;
    var protocols := if includeNetwork then pol.protocols else [];
    var processPaths := ClearAll(pol.processPaths);
    var processDirs := ClearAll(pol.processDirs);
    AllClearedNames(pol.processPaths, processPaths);
    var globalbinaries := GlobalBinaries(processPaths);
    var filePaths := AppendPlain(pol.filePaths, globalbinaries, true);
    var filePaths' := ClearUsed(filePaths, globalbinaries);
    var fileDirs := ClearUsed(pol.fileDirs, globalbinaries);
    var protocols' := ClearUsed(protocols, globalbinaries);
    result := pol.(filePaths := filePaths', fileDirs := fileDirs, processPaths := processPaths,
                   processDirs := processDirs, protocols := protocols');
    FilesCleared(pol, globalbinaries, filePaths', fileDirs);
    AppendedCleared(pol.filePaths, globalbinaries, filePaths');
  }

  lemma AllClearedNames(before: seq<Rule>, after: seq<Rule>)
    requires AllCleared(before, after)
    ensures NoSources(after) && NamesOf(after) == NamesOf(before)
  {
    SameNames(before, after);
  }

  /** In a closed policy every source of a file rule is among the processes, so every such rule is cleared. */
  lemma FilesCleared(pol: Policy, binaries: seq<string>, filePaths: seq<Rule>, fileDirs: seq<Rule>)
    requires Closed(pol) && binaries == Firsts(NamesOf(pol.processPaths))
    requires UsedCleared(pol.filePaths + PlainRules(binaries, true), filePaths, binaries)
    requires UsedCleared(pol.fileDirs, fileDirs, binaries)
    ensures AllCleared(pol.filePaths + PlainRules(binaries, true), filePaths) && AllCleared(pol.fileDirs, fileDirs)
  {
    FirstsDistinct(NamesOf(pol.processPaths));
    forall x | SourceIn(pol.filePaths + PlainRules(binaries, true), x) || SourceIn(pol.fileDirs, x)
      ensures x in binaries
    {
      AppendedSources(pol.filePaths, binaries, x);
      NamesOfMembers(pol.processPaths, x);
    }
    hide Firsts, PlainRules, SourceIn, UsedCleared, AllCleared;
    UsedIsAll(pol.filePaths + PlainRules(binaries, true), filePaths, binaries);
    UsedIsAll(pol.fileDirs, fileDirs, binaries);
  }

  lemma ClearedPrefix(files: seq<Rule>, more: seq<Rule>, after: seq<Rule>)
    requires AllCleared(files + more, after)
    ensures |after| == |files| + |more| && AllCleared(files, after[..|files|])
    ensures forall j :: 0 <= j < |more| ==> after[|files| + j] == more[j].(sources := [])
  {
    var n, all := |files|, files + more;
    forall i | 0 <= i < n ensures after[..n][i] == files[i].(sources := []) { assert all[i] == files[i]; }
    forall j | 0 <= j < |more| ensures after[n + j] == more[j].(sources := []) { assert all[n + j] == more[j]; }
  }

  lemma AppendedCleared(files: seq<Rule>, binaries: seq<string>, filePaths: seq<Rule>)
    requires AllCleared(files + PlainRules(binaries, true), filePaths)
    ensures |filePaths| == |files| + |binaries| && AllCleared(files, filePaths[..|files|])
    ensures forall j :: 0 <= j < |binaries| ==>
      filePaths[|files| + j] == Rule(binaries[j], Attrs(true, false, false), [])
  {
    ClearedPrefix(files, PlainRules(binaries, true), filePaths);
    PlainRulesAt(binaries, true);
    hide AllCleared, PlainRules;
  }

  /** The distinct process paths that hold for every process: all of them. */
  method GlobalBinaries(processPaths: seq<Rule>) returns (globalbinaries: seq<string>)
    requires NoSources(processPaths)
    ensures globalbinaries == Firsts(NamesOf(processPaths))
  {
    globalbinaries := [];
    for i := 0 to |processPaths|
      invariant globalbinaries == Firsts(NamesOf(processPaths[..i]))
    {
      assert processPaths[..i + 1][..i] == processPaths[..i];
      ghost var names := NamesOf(processPaths[..i]);
      assert (names + [processPaths[i].name])[..|names|] == names;
      if |processPaths[i].sources| == 0 && processPaths[i].name !in globalbinaries {
        globalbinaries := globalbinaries + [processPaths[i].name];
      }
    }
    assert processPaths[..|processPaths|] == processPaths;
  }

  /** The results stand for the policies outside the virtual machine namespace, in order. */
  ghost predicate ExtractedAll(policies: seq<KubeArmorPolicy>, result: seq<KubeArmorPolicy>, from: seq<nat>,
                               includeNetwork: bool) {
    && |result| == |from|
    && (forall i, j :: 0 <= i < j < |from| ==> from[i] < from[j])
    && (forall i: nat :: i in from <==> i < |policies| && policies[i].namespace != "accuknox-vm-namespace")
    && forall j :: 0 <= j < |from| ==> ExtractedFrom(policies, result[j], from[j], includeNetwork)
  }

  ghost predicate ExtractedFrom(policies: seq<KubeArmorPolicy>, r: KubeArmorPolicy, i: nat, includeNetwork: bool) {
    && i < |policies| && r == policies[i].(spec := r.spec) && Extracted(policies[i].spec, r.spec, includeNetwork)
  }

  /** Translates the stored policies and extracts the Kubernetes ones. Every file rule of a result holds
      for every process, and every process path may also be read. */
  method ExtractK8SSystemPolicies(sysPols: seq<KnoxPolicy>, includeNetwork: bool)
      returns (result: seq<KubeArmorPolicy>, ghost policies: seq<KubeArmorPolicy>, ghost from: seq<nat>)
    ensures |policies| == |sysPols| && forall i :: 0 <= i < |sysPols| ==> Translated(sysPols[i], policies[i])
    ensures ExtractedAll(policies, result, from, includeNetwork)
  {
    hide Translated, Extracted;
    var converted := ConvertAll(sysPols);
    policies, result, from := converted, [], [];
    for i := 0 to |converted|
      invariant |result| == |from|
      invariant forall a, b :: 0 <= a < b < |from| ==> from[a] < from[b]
      invariant forall k: nat :: k in from <==> k < i && policies[k].namespace != VM_NAMESPACE
      invariant forall j :: 0 <= j < |from| ==> ExtractedFrom(policies, result[j], from[j], includeNetwork)
    {
      if converted[i].namespace != VM_NAMESPACE {
        TranslatedIsClosed(sysPols[i], converted[i]);
        var spec := ExtractPolicy(converted[i].spec, includeNetwork);
        forall j | 0 <= j < |from| ensures from[j] < i { assert from[j] in from; }
        result, from := result + [converted[i].(spec := spec)], from + [i];
      }
    }
  }
}
