/** The file path tree in place, and the aggregation built on it. The methods are proved against the
    value-level trie of SysTrie and SysForest; AggregatePaths returns exactly the declarative cut. */
module SysNode {
  import opened Paths
  import opened SysTrie
  import opened SysForest

  /** The result map the printer writes to: text to directory flag. */
  class FlagMap {
    var entries: map<string, bool>

    constructor ()
      ensures entries == map[]
    {
      entries := map[];
    }

    method Set(key: string, isDir: bool)
      modifies this
      ensures entries == old(entries)[key := isDir]
    {
      entries := entries[key := isDir];
    }
  }

  class Node {
    var path: string
    var isDir: bool
    var depth: int
    var touchCount: int
    var childNodes: seq<Node>

    ghost var model: Trie
    ghost var Repr: set<Node>

    ghost predicate Valid()
      reads this, Repr
      decreases Repr
    {
      && this in Repr
      && model.path == path && model.isDir == isDir && |model.kids| == |childNodes|
      && (forall i :: 0 <= i < |childNodes| ==>
            && childNodes[i] in Repr && childNodes[i].Repr <= Repr - {this}
            && childNodes[i].Valid() && childNodes[i].depth == depth + 1
            && childNodes[i].model == model.kids[i])
      && forall i, j :: 0 <= i < j < |childNodes| ==> childNodes[i].Repr !! childNodes[j].Repr
    }

    constructor (path: string, depth: int, isDir: bool)
      ensures Valid() && Repr == {this} && model == Trie(path, isDir, [])
      ensures this.depth == depth
    {
      this.path, this.depth, this.isDir, this.touchCount, this.childNodes := path, depth, isDir, 1, [];
      model, Repr := Trie(path, isDir, []), {this};
    }

    /** The first child whose wildcard or text accepts the segment. */
    method FindChildNode(path: string, depth: int) returns (child: Node?, ghost at: nat)
      requires Valid() && depth == this.depth + 1
      ensures at == Find(model.kids, path)
      ensures at == |childNodes| ==> child == null
      ensures at < |childNodes| ==> child == childNodes[at]
    {
      for i := 0 to |childNodes|
        invariant forall k :: 0 <= k < i ==> !ChildMatches(model.kids[k].path, path)
      {
        var c := childNodes[i];
        assert model.kids[i] == c.model && c.Valid();
        if IsWild(c.path) && c.depth == depth {
          if WildFinds(c.path, path) {
            FindIs(model.kids, path, i);
            return c, i;
          }
        } else if c.path == path && c.depth == depth {
          FindIs(model.kids, path, i);
          return c, i;
        }
      }
      FindIs(model.kids, path, |childNodes|);
      return null, |childNodes|;
    }

    /** Re-reads the value of one child after it changed by itself. */
    ghost method Refresh(i: nat)
      requires i < |childNodes| && this in Repr
      requires model.path == path && model.isDir == isDir && |model.kids| == |childNodes|
      requires forall k :: 0 <= k < |childNodes| ==>
                 childNodes[k] in Repr && this !in childNodes[k].Repr
                 && childNodes[k].Valid() && childNodes[k].depth == depth + 1
      requires forall k :: 0 <= k < |childNodes| && k != i ==>
                 childNodes[k].Repr <= Repr - {this} && model.kids[k] == childNodes[k].model
      requires forall j, k :: 0 <= j < k < |childNodes| ==> childNodes[j].Repr !! childNodes[k].Repr
      modifies this`model, this`Repr
      ensures Valid() && Repr == old(Repr) + childNodes[i].Repr
      ensures model == old(model).(kids := old(model).kids[i := childNodes[i].model])
    {
      Repr := Repr + childNodes[i].Repr;
      model := model.(kids := model.kids[i := childNodes[i].model]);
    }

    /** Appends a finished child. */
    method Adopt(child: Node)
      requires Valid() && child.Valid() && child.depth == depth + 1 && child.Repr !! Repr
      modifies this`childNodes, this`model, this`Repr
      ensures Valid() && Repr == old(Repr) + child.Repr
      ensures model == old(model).(kids := old(model).kids + [child.model])
    {
      childNodes := childNodes + [child];
      Repr := Repr + child.Repr;
      model := model.(kids := model.kids + [child.model]);
    }

    /** Inserts the remaining segments below this node. */
    method Insert(paths: Path)
      requires Valid()
      modifies Repr
      ensures Valid() && fresh(Repr - old(Repr)) && depth == old(depth)
      ensures model == Trie(old(model).path, old(model).isDir, InsertBelow(old(model).kids, paths))
      decreases |paths|, 2
    {
      if paths == [] {
        return;
      }
      var child, at := FindChildNode(paths[0], depth + 1);
      if child == null {
        InsertNew(paths);
      } else {
        InsertInto(child, paths, at);
      }
    }

    method InsertNew(paths: Path)
      requires Valid() && paths != []
      modifies Repr
      ensures Valid() && fresh(Repr - old(Repr)) && depth == old(depth)
      ensures model == Trie(old(model).path, old(model).isDir,
                            old(model).kids + [Trie(paths[0], false, InsertBelow([], paths[1..]))])
      decreases |paths|, 1
    {
      var newChild := new Node(paths[0], depth + 1, false);
      newChild.Insert(paths[1..]);
      Adopt(newChild);
    }

    method InsertInto(child: Node, paths: Path, ghost at: nat)
      requires Valid() && paths != [] && at < |childNodes| && child == childNodes[at]
      modifies Repr
      ensures Valid() && fresh(Repr - old(Repr)) && depth == old(depth)
      ensures model == Trie(old(model).path, old(model).isDir, old(model).kids[at :=
                Trie(old(model).kids[at].path, old(model).kids[at].isDir,
                     InsertBelow(old(model).kids[at].kids, paths[1..]))])
      decreases |paths|, 1
    {
      child.Touch();
      child.Insert(paths[1..]);
      Refresh(at);
    }

    method Touch()
      requires Valid()
      modifies this`touchCount
      ensures Valid() && touchCount == old(touchCount) + 1
    {
      touchCount := touchCount + 1;
    }

    /** Children first; a node with more than THRESHOLD children becomes a childless directory. */
    method AggregateChildNodes()
      requires Valid()
      modifies Repr
      ensures Valid() && fresh(Repr - old(Repr)) && depth == old(depth)
      ensures model == Aggregate(old(model))
      decreases model
    {
      ghost var start := model;
      for i := 0 to |childNodes|
        invariant Valid() && fresh(Repr - old(Repr)) && depth == old(depth)
        invariant childNodes == old(childNodes) && model == start.(kids := model.kids)
        invariant |model.kids| == |start.kids| == |childNodes|
        invariant forall k :: 0 <= k < i ==> model.kids[k] == Aggregate(start.kids[k])
        invariant forall k :: i <= k < |childNodes| ==> model.kids[k] == start.kids[k]
      {
        AggregateChild(i, start);
      }
      KidsAggregated(start.kids, model.kids);
      if |childNodes| > THRESHOLD {
        ToDirectory();
      }
    }

    method AggregateChild(i: nat, ghost start: Trie)
      requires Valid() && i < |childNodes| && i < |start.kids| && model.kids[i] == start.kids[i]
      modifies Repr
      ensures Valid() && fresh(Repr - old(Repr)) && depth == old(depth) && childNodes == old(childNodes)
      ensures |model.kids| == |old(model).kids|
      ensures model == Trie(old(model).path, old(model).isDir, old(model).kids[i := model.kids[i]])
      ensures model.kids[i] == Aggregate(start.kids[i])
      decreases start, 0
    {
      hide Aggregate;
      childNodes[i].AggregateChildNodes();
      Refresh(i);
    }

    method ToDirectory()
      requires Valid()
      modifies this
      ensures Valid() && Repr <= old(Repr) && depth == old(depth)
      ensures model == Trie(old(model).path, true, [])
    {
      childNodes := [];
      touchCount := 1;
      isDir := true;
      model, Repr := Trie(model.path, true, []), {this};
    }

    /** Writes the leaves of this subtree to the results. */
    method GeneratePaths(results: FlagMap, parentPath: string)
      requires Valid()
      modifies results
      ensures results.entries == old(results.entries) + Printed(model, parentPath)
      decreases Repr
    {
      hide Printed, PrintedKids;
      ghost var start := results.entries;
      PrintedNode(model, parentPath, start);
      for i := 0 to |childNodes|
        invariant results.entries == start + PrintedKids(model.kids[..i], parentPath + path)
      {
        PrintedMore(start, model.kids, i, parentPath + path);
        childNodes[i].GeneratePaths(results, parentPath + path);
      }
      assert model.kids[..|childNodes|] == model.kids;
      if |childNodes| == 0 {
        if isDir {
          results.Set(parentPath + path, true);
        } else {
          results.Set(parentPath + path, false);
        }
      }
    }
  }

  lemma {:induction false} FindIs(kids: seq<Trie>, s: string, i: nat)
    requires i <= |kids|
    requires forall k :: 0 <= k < i ==> !ChildMatches(kids[k].path, s)
    requires i < |kids| ==> ChildMatches(kids[i].path, s)
    ensures Find(kids, s) == i
  {
    if i > 0 { FindIs(kids[1..], s, i - 1); }
  }

  lemma PrintedMore(start: map<string, bool>, kids: seq<Trie>, i: nat, parent: string)
    requires i < |kids|
    ensures start + PrintedKids(kids[..i + 1], parent) ==
            start + PrintedKids(kids[..i], parent) + Printed(kids[i], parent)
  {
    PrintedKidsStep(kids, i, parent);
  }

  lemma PrintedNode(t: Trie, parent: string, start: map<string, bool>)
    ensures start + PrintedKids([], parent + t.path) == start && t.kids[..0] == []
    ensures t.kids == [] ==> start + Printed(t, parent) == start[parent + t.path := t.isDir]
    ensures t.kids != [] ==> Printed(t, parent) == PrintedKids(t.kids, parent + t.path)
  {
  }

  lemma KidsAggregated(kids: seq<Trie>, done: seq<Trie>)
    requires |done| == |kids| && forall k :: 0 <= k < |kids| ==> done[k] == Aggregate(kids[k])
    ensures done == AggregateAll(kids)
  {
    forall k | 0 <= k < |kids| ensures AggregateAll(kids)[k] == done[k] { AggregateAllAt(kids, k); }
  }

  /** A tree none of whose nodes changed is as it was. */
  twostate lemma Untouched(n: Node)
    requires old(n.Valid()) && forall o :: o in old(n.Repr) ==> unchanged(o)
    ensures n.Valid() && n.Repr == old(n.Repr) && n.model == old(n.model) && n.depth == old(n.depth)
  {
    assert n.Valid() == old(n.Valid());
  }

  // ================================================================ the map of roots

  /** Valid, separate roots with the given values. */
  ghost predicate Roots(m: map<string, Node>, f: Forest, own: set<Node>)
    reads own
  {
    && m.Keys == f.Keys
    && (forall r :: r in m ==> m[r] in own && m[r].Repr <= own)
    && (forall r :: r in m ==> m[r].Valid() && m[r].depth == 0 && m[r].model == f[r])
    && forall r, s :: r in m && s in m && r != s ==> m[r].Repr !! m[s].Repr
  }

  /** The roots after one of them got a new tree. */
  lemma RootsWith(m: map<string, Node>, f: Forest, own: set<Node>, r: string, n: Node)
    requires m.Keys == f.Keys && n.Valid() && n.depth == 0
    requires forall s :: s in m && s != r ==> m[s] in own && m[s].Repr <= own
    requires forall s :: s in m && s != r ==> m[s].Valid() && m[s].depth == 0 && m[s].model == f[s]
    requires forall s :: s in m && s != r ==> m[s].Repr !! n.Repr
    requires forall s, t :: s in m && t in m && s != r && t != r && s != t ==> m[s].Repr !! m[t].Repr
    ensures Roots(m[r := n], f[r := n.model], own + n.Repr)
  {
  }

  /** All trees but those in todo are aggregated. */
  ghost predicate PartlyAggregated(start: Forest, f: Forest, todo: set<string>) {
    f.Keys == start.Keys && forall r :: r in start.Keys ==> f[r] == if r in todo then start[r] else Aggregate(start[r])
  }

  lemma NoneAggregated(f: Forest)
    ensures PartlyAggregated(f, f, f.Keys)
  {
  }

  lemma AggregatedOne(start: Forest, f: Forest, todo: set<string>, r: string)
    requires PartlyAggregated(start, f, todo) && r in todo && todo <= start.Keys
    ensures r in f && PartlyAggregated(start, f[r := Aggregate(f[r])], todo - {r})
  {
  }

  lemma AggregatedEach(start: Forest, f: Forest)
    requires PartlyAggregated(start, f, {})
    ensures f.Keys == start.Keys && forall r :: r in start.Keys ==> f[r] == Aggregate(start[r])
  {
  }

  class TreeMap {
    var treeMap: map<string, Node>
    ghost var forest: Forest
    ghost var Repr: set<Node>

    ghost predicate Valid()
      reads this, Repr
    {
      Roots(treeMap, forest, Repr)
    }

    constructor ()
      ensures Valid() && forest == map[] && Repr == {}
    {
      treeMap, forest, Repr := map[], map[], {};
    }

    method InsertNewRoot(p: Path, tokens: Path)
      requires Valid() && p != [] && p[0] !in treeMap && tokens == Mapped(p)
      modifies this, Repr
      ensures Valid() && fresh(Repr - old(Repr)) && forest == InsertRoot(old(forest), p)
    {
      hide Node.Valid, InsertBelow;
      var newRoot := new Node(p[0], 0, p[0] == TMP);
      newRoot.Insert(tokens[1..]);
      forall s | s in treeMap
        ensures treeMap[s].Valid() && treeMap[s].Repr == old(treeMap[s].Repr)
        ensures treeMap[s].depth == old(treeMap[s].depth) && treeMap[s].model == old(treeMap[s].model)
      {
        Untouched(treeMap[s]);
      }
      RootsWith(treeMap, forest, Repr, p[0], newRoot);
      SetRoot(p[0], newRoot);
    }

    method InsertIntoRoot(p: Path, tokens: Path)
      requires Valid() && p != [] && p[0] in treeMap && tokens == Mapped(p)
      modifies this, Repr
      ensures Valid() && fresh(Repr - old(Repr)) && forest == InsertRoot(old(forest), p)
    {
      hide Node.Valid, InsertBelow;
      var rootNode := treeMap[p[0]];
      rootNode.Touch();
      rootNode.Insert(tokens[1..]);
      forall s | s in treeMap && s != p[0]
        ensures treeMap[s].Valid() && treeMap[s].Repr == old(treeMap[s].Repr)
        ensures treeMap[s].depth == old(treeMap[s].depth) && treeMap[s].model == old(treeMap[s].model)
      {
        Untouched(treeMap[s]);
      }
      RootsWith(treeMap, forest, Repr, p[0], rootNode);
      SetRoot(p[0], rootNode);
    }

    method SetRoot(r: string, n: Node)
      requires Roots(treeMap[r := n], forest[r := n.model], Repr + n.Repr)
      modifies this
      ensures Valid() && forest == old(forest)[r := n.model] && Repr == old(Repr) + n.Repr
      ensures treeMap.Keys == old(treeMap).Keys + {r}
    {
      hide Node.Valid;
      treeMap, forest, Repr := treeMap[r := n], forest[r := n.model], Repr + n.Repr;
    }

    /** Inserts the sorted paths into no trees; everything below /tmp goes to /tmp itself. */
    method BuildPathTree(paths: seq<string>)
      requires Valid() && forest == map[]
      modifies this, Repr
      ensures Valid() && fresh(Repr - old(Repr)) && forest == BuildForest(LexSort(paths))
    {
      var sorted := LexSort(paths);
      for i := 0 to |sorted|
        invariant Valid() && fresh(Repr - old(Repr))
        invariant forest == BuildForest(sorted[..i])
      {
        assert sorted[..i + 1][..i] == sorted[..i];
        if sorted[i] == "/" {
          continue;
        }
        var tokenizedPaths := Tokenize(sorted[i]);
        if |tokenizedPaths| == 0 {
          continue;
        }
        InsertTokens(tokenizedPaths);
      }
      assert sorted[..|sorted|] == sorted;
    }

    method InsertTokens(p: Path)
      requires Valid() && p != []
      modifies this, Repr
      ensures Valid() && fresh(Repr - old(Repr)) && forest == InsertRoot(old(forest), p)
    {
      var rootPath, tokens := p[0], p;
      if rootPath == "/tmp" {
        TmpTokens();
        tokens := Tokenize("/tmp/");
      }
      if rootPath !in treeMap {
        InsertNewRoot(p, tokens);
      } else {
        InsertIntoRoot(p, tokens);
      }
    }

    method AggregateRoot(r: string)
      requires Valid() && r in treeMap
      modifies this, Repr
      ensures Valid() && fresh(Repr - old(Repr)) && treeMap.Keys == old(treeMap).Keys
      ensures r in old(forest) && forest == old(forest)[r := Aggregate(old(forest)[r])]
    {
      hide Node.Valid, Aggregate;
      var root := treeMap[r];
      root.AggregateChildNodes();
      forall s | s in treeMap && s != r
        ensures treeMap[s].Valid() && treeMap[s].Repr == old(treeMap[s].Repr)
        ensures treeMap[s].depth == old(treeMap[s].depth) && treeMap[s].model == old(treeMap[s].model)
      {
        Untouched(treeMap[s]);
      }
      RootsWith(treeMap, forest, Repr, r, root);
      SetRoot(r, root);
    }

    /** Aggregates every tree, in the order of the hash map. */
    method AggregateRoots()
      requires Valid()
      modifies this, Repr
      ensures Valid() && fresh(Repr - old(Repr)) && forest == AggregateForest(old(forest))
    {
      AggregateEach();
    }

    method AggregateEach()
      requires Valid() && treeMap.Keys == forest.Keys
      modifies this, Repr
      ensures Valid() && fresh(Repr - old(Repr)) && forest.Keys == old(forest).Keys
      ensures forall r :: r in old(forest).Keys ==> forest[r] == Aggregate(old(forest)[r])
    {
      hide *;
      ghost var start := forest;
      var todo := treeMap.Keys;
      NoneAggregated(forest);
      while todo != {}
        invariant Valid() && fresh(Repr - old(Repr)) && todo <= treeMap.Keys == start.Keys
        invariant PartlyAggregated(start, forest, todo)
        decreases |todo|
      {
        var r :| r in todo;
        AggregatedOne(start, forest, todo, r);
        AggregateRoot(r);
        todo := todo - {r};
      }
      AggregatedEach(start, forest);
    }

    /** Prints every tree into one map. */
    method PrintRoots(results: FlagMap)
      requires Valid() && results.entries == map[]
      modifies results
      ensures PrintsForest(forest, results.entries)
    {
      hide Node.Valid, Printed;
      var todo := treeMap.Keys;
      while todo != {}
        invariant todo <= treeMap.Keys
        invariant forall r, x :: r in forest && r !in todo && x in Printed(forest[r], "") ==> x in results.entries
        invariant forall x :: x in results.entries ==> exists r :: PrintedAs(forest, r, x, results.entries[x])
        decreases |todo|
      {
        var r :| r in todo;
        ghost var before := results.entries;
        treeMap[r].GeneratePaths(results, "");
        forall x | x in results.entries ensures exists s :: PrintedAs(forest, s, x, results.entries[x]) {
          if x in Printed(forest[r], "") {
            assert PrintedAs(forest, r, x, results.entries[x]);
          } else {
            assert x in before && results.entries[x] == before[x];
          }
        }
        todo := todo - {r};
      }
    }
  }

  lemma TmpTokens()
    ensures Tokenize("/tmp/") == [TMP]
  {
    assert NextSlash("/tmp/", 2) == 4;
    assert "/tmp/"[..4] == TMP && "/tmp/"[4..] == "/";
  }

  // ================================================================ aggregating a list of paths

  lemma SortedTokens(paths: seq<string>)
    ensures TokenSet(LexSort(paths)) == TokenSet(paths)
  {
    LexSortMembers(paths);
  }

  /** The entries of the printed map, listed, are the outputs. */
  lemma ListedAreOutputs(paths: seq<string>, m: map<string, bool>, keys: seq<string>, results: seq<SysPath>)
      returns (outs: seq<Out>)
    requires Built(paths) && PrintsForest(AggregateForest(BuildForest(paths)), m)
    requires NoDuplicates(keys) && (forall x :: x in keys <==> x in m) && |results| == |keys|
    requires forall i :: 0 <= i < |keys| ==> keys[i] in keys && results[i] == SysPathOf(keys[i], m[keys[i]])
    ensures ListsOutputs(results, outs, TokenSet(paths))
  {
    hide TokenSet, BuildForest, PrintsForest, Aggregated, SysPathOf;
    outs := OutputsOf(paths, m, keys);
    forall o ensures o in outs <==> Aggregated(TokenSet(paths), o) {
      if Aggregated(TokenSet(paths), o) {
        OutputIsPrinted(paths, m, o);
        var i :| 0 <= i < |keys| && keys[i] == Concat(o.path);
        OutputShape(paths, o);
        OutputShape(paths, outs[i]);
        ConcatInjective(o.path, outs[i].path);
      }
    }
  }

  lemma {:induction false} OutputsOf(paths: seq<string>, m: map<string, bool>, keys: seq<string>)
      returns (outs: seq<Out>)
    requires Built(paths) && PrintsForest(AggregateForest(BuildForest(paths)), m)
    requires forall i :: 0 <= i < |keys| ==> keys[i] in m
    ensures |outs| == |keys|
    ensures forall i :: 0 <= i < |outs| ==>
      Aggregated(TokenSet(paths), outs[i]) && Concat(outs[i].path) == keys[i] && outs[i].dir == m[keys[i]]
  {
    hide *;
    if keys == [] {
      outs := [];
    } else {
      var o := PrintedIsOutput(paths, m, keys[0]);
      var rest := OutputsOf(paths, m, keys[1..]);
      outs := [o] + rest;
    }
  }

  /** Builds, aggregates and prints the trees. When the forest is built right, as it is for inputs without
      literal wildcards, the results are exactly the declarative cut of the set of inputs, each output once. */
  method AggregatePaths(paths: seq<string>)
      returns (results: seq<SysPath>, ghost printed: map<string, bool>, ghost outs: seq<Out>)
    ensures PrintsForest(AggregateForest(BuildForest(LexSort(paths))), printed)
    ensures |results| == |printed|
    ensures forall r :: r in results <==> exists x :: x in printed && r == SysPathOf(x, printed[x])
    ensures Built(LexSort(paths)) ==> ListsOutputs(results, outs, TokenSet(paths))
    ensures AllPlainBelow(TokenSet(paths)) ==> Built(LexSort(paths))
  {
    hide *;
    var treeMap := new TreeMap();
    treeMap.BuildPathTree(paths);
    treeMap.AggregateRoots();
    var aggregatedPaths := new FlagMap();
    treeMap.PrintRoots(aggregatedPaths);
    ghost var keys;
    results, keys := ListPaths(aggregatedPaths.entries);
    printed, outs := aggregatedPaths.entries, [];
    SortedTokens(paths);
    if AllPlainBelow(TokenSet(paths)) { PlainIsBuilt(LexSort(paths)); }
    if Built(LexSort(paths)) {
      outs := ListedAreOutputs(LexSort(paths), printed, keys, results);
    }
  }

  /** The entries of the map, in the order of an iteration over it. */
  method ListPaths(entries: map<string, bool>) returns (results: seq<SysPath>, ghost keys: seq<string>)
    ensures NoDuplicates(keys) && (forall x :: x in keys <==> x in entries) && |results| == |keys| == |entries|
    ensures forall i :: 0 <= i < |keys| ==> keys[i] in keys && results[i] == SysPathOf(keys[i], entries[keys[i]])
    ensures forall r :: r in results <==> exists x :: x in entries && r == SysPathOf(x, entries[x])
  {
    results, keys := [], [];
    var todo := entries.Keys;
    while todo != {}
      invariant todo <= entries.Keys && |results| == |keys| && |keys| + |todo| == |entries.Keys|
      invariant NoDuplicates(keys) && forall x :: x in keys <==> x in entries && x !in todo
      invariant forall i :: 0 <= i < |keys| ==> keys[i] in entries && results[i] == SysPathOf(keys[i], entries[keys[i]])
      decreases |todo|
    {
      var path :| path in todo;
      var isDir := entries[path];
      var text := path;
      if isDir && !HasSlash(text) {
        text := text + "/";
      }
      results, keys, todo := results + [SysPath(text, isDir)], keys + [path], todo - {path};
    }
    ListedResults(entries, keys, results);
  }

  lemma ListedResults(entries: map<string, bool>, keys: seq<string>, results: seq<SysPath>)
    requires (forall x :: x in keys <==> x in entries) && |results| == |keys|
    requires forall i :: 0 <= i < |keys| ==> keys[i] in entries && results[i] == SysPathOf(keys[i], entries[keys[i]])
    ensures forall r :: r in results <==> exists x :: x in entries && r == SysPathOf(x, entries[x])
  {
    forall x | x in entries ensures SysPathOf(x, entries[x]) in results {
      var i :| 0 <= i < |keys| && keys[i] == x;
      assert results[i] == SysPathOf(x, entries[x]);
    }
  }
}
