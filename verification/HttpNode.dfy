/** The HTTP path tree in place: nodes whose counter and child list are updated, a map of roots that
    lives on between rounds. Each method is proved against the value-level tree of HttpTrie. */
module HttpNode {
  import opened Paths
  import opened HttpTrie
  import opened HttpForest

  /** The key under which children are united. */
  datatype MergedNode = MergedNode(path: string, depth: int)

  /** The result map the printer writes to; its values are all true. */
  class ResultMap {
    var keys: set<string>

    constructor ()
      ensures keys == {}
    {
      keys := {};
    }

    method Add(key: string)
      modifies this
      ensures keys == old(keys) + {key}
    {
      keys := keys + {key};
    }
  }

  class Node {
    var path: string
    var depth: int
    var touchCount: int
    var childNodes: seq<Node>

    ghost var model: Tree
    ghost var Repr: set<Node>

    ghost predicate Valid()
      reads this, Repr
      decreases Repr
    {
      && this in Repr
      && model.path == path && touchCount == |model.seen| && |model.kids| == |childNodes|
      && (forall i :: 0 <= i < |childNodes| ==>
            && childNodes[i] in Repr && childNodes[i].Repr <= Repr - {this}
            && childNodes[i].Valid() && childNodes[i].depth == depth + 1
            && childNodes[i].model == model.kids[i])
      && forall i, j :: 0 <= i < j < |childNodes| ==> childNodes[i].Repr !! childNodes[j].Repr
    }

    /** A new node; in a tree it stands for the first path that reaches it. */
    constructor (path: string, depth: int, touchCount: int, ghost seen: seq<Path>)
      requires touchCount == |seen|
      ensures Valid() && Repr == {this} && model == Tree(path, seen, [])
      ensures this.depth == depth
    {
      this.path, this.depth, this.touchCount, this.childNodes := path, depth, touchCount, [];
      model, Repr := Tree(path, seen, []), {this};
    }

    /** A node made over existing children. */
    constructor Over(path: string, depth: int, touchCount: int, childNodes: seq<Node>, ghost m: Tree)
      requires Siblings(childNodes, m.kids, depth + 1) && m.path == path && touchCount == |m.seen|
      ensures Valid() && Repr == {this} + ReprOf(childNodes) && model == m && this.depth == depth
      ensures fresh(this)
    {
      this.path, this.depth, this.touchCount, this.childNodes := path, depth, touchCount, childNodes;
      model, Repr := m, {this} + ReprOf(childNodes);
      new;
      BuildValid(this);
    }

    /** The first child whose wildcard or text accepts the segment. */
    method FindChildNode(path: string, depth: int) returns (child: Node?, ghost at: nat)
      requires Valid() && depth == this.depth + 1
      ensures at == Find(model.kids, path)
      ensures at == |childNodes| ==> child == null
      ensures at < |childNodes| ==> child == childNodes[at]
    {
      for i := 0 to |childNodes|
        invariant forall k :: 0 <= k < i ==> !ChildMatches(model.kids[k].path, path)
      {
        var c := childNodes[i];
        assert model.kids[i] == c.model && c.Valid();
        if IsWild(c.path) && c.depth == depth {
          if WildFinds(c.path, path) {
            FindIs(model.kids, path, i);
            return c, i;
          }
        } else if c.path == path && c.depth == depth {
          FindIs(model.kids, path, i);
          return c, i;
        }
      }
      FindIs(model.kids, path, |childNodes|);
      return null, |childNodes|;
    }

    /** Re-reads the value of one child after it changed by itself. */
    ghost method Refresh(i: nat)
      requires i < |childNodes| && this in Repr
      requires model.path == path && touchCount == |model.seen| && |model.kids| == |childNodes|
      requires forall k :: 0 <= k < |childNodes| ==>
                 childNodes[k] in Repr && this !in childNodes[k].Repr
                 && childNodes[k].Valid() && childNodes[k].depth == depth + 1
      requires forall k :: 0 <= k < |childNodes| && k != i ==>
                 childNodes[k].Repr <= Repr - {this} && model.kids[k] == childNodes[k].model
      requires forall j, k :: 0 <= j < k < |childNodes| ==> childNodes[j].Repr !! childNodes[k].Repr
      modifies this`model, this`Repr
      ensures Valid() && Repr == old(Repr) + childNodes[i].Repr
      ensures model == old(model).(kids := old(model).kids[i := childNodes[i].model])
    {
      Repr := Repr + childNodes[i].Repr;
      model := model.(kids := model.kids[i := childNodes[i].model]);
    }

    /** Appends a finished child. */
    method Adopt(child: Node)
      requires Valid() && child.Valid() && child.depth == depth + 1 && child.Repr !! Repr
      modifies this`childNodes, this`model, this`Repr
      ensures Valid() && Repr == old(Repr) + child.Repr
      ensures model == old(model).(kids := old(model).kids + [child.model])
    {
      childNodes := childNodes + [child];
      Repr := Repr + child.Repr;
      model := model.(kids := model.kids + [child.model]);
    }

    /** Inserts a path below this node. */
    method Insert(paths: Path)
      requires Valid()
      modifies Repr
      ensures Valid() && fresh(Repr - old(Repr)) && depth == old(depth)
      ensures model == Tree(old(model).path, old(model).seen, InsertBelow(old(model).kids, paths))
      decreases |paths|, 2
    {
      if paths == [] {
        return;
      }
      var child, at := FindChildNode(paths[0], depth + 1);
      if child == null {
        InsertNew(paths);
      } else {
        InsertInto(child, paths, at);
      }
    }

    method InsertNew(paths: Path)
      requires Valid() && paths != [] && Find(model.kids, paths[0]) == |model.kids|
      modifies Repr
      ensures Valid() && fresh(Repr - old(Repr)) && depth == old(depth)
      ensures model == Tree(old(model).path, old(model).seen, old(model).kids + [Visit(Fresh(paths[0]), paths)])
      decreases |paths|, 1
    {
      VisitFresh(paths);
      var newChild := new Node(paths[0], depth + 1, 1, [paths]);
      newChild.Insert(paths[1..]);
      Adopt(newChild);
    }

    method InsertInto(child: Node, paths: Path, ghost at: nat)
      requires Valid() && paths != [] && at < |childNodes| && child == childNodes[at]
      modifies Repr
      ensures Valid() && fresh(Repr - old(Repr)) && depth == old(depth)
      ensures model == Tree(old(model).path, old(model).seen,
                            old(model).kids[at := Visit(old(model).kids[at], paths)])
      decreases |paths|, 1
    {
      child.Touch(paths);
      child.Insert(paths[1..]);
      Refresh(at);
    }

    /** Unites the children that have equal paths. */
    method MergeSameChildNodes()
      requires Valid()
      modifies this
      ensures Valid() && fresh(Repr - old(Repr)) && depth == old(depth)
      ensures model.path == old(model).path && model.seen == old(model).seen
      ensures MergesSame(old(model).kids, model.kids)
    {
      ChildrenAreSiblings(this);
      AlreadyMerged(model.kids);
      if childNodes == [] {
        return;
      }
      hide *;
      var nodeMap, counts, merged := GroupChildren(childNodes, model.kids, depth + 1);
      if !merged {
        return;
      }
      Regroup(nodeMap, counts);
    }

    method Regroup(nodeMap: map<MergedNode, seq<Node>>, counts: map<MergedNode, int>)
      requires Valid() && !DistinctPaths(model.kids)
      requires Grouped(childNodes, model.kids, depth + 1, nodeMap, counts)
      modifies this
      ensures Valid() && fresh(Repr - old(Repr)) && depth == old(depth)
      ensures model.path == old(model).path && model.seen == old(model).seen
      ensures MergesSame(old(model).kids, model.kids)
    {
      hide *;
      ChildrenAreSiblings(this);
      ghost var below := ReprOf(childNodes);
      var newKids, trees := RebuildChildren(childNodes, model.kids, depth + 1, nodeMap, counts);
      NewOnly(Repr, below, ReprOf(newKids), this);
      Replace(newKids, trees);
    }

    method Replace(kids: seq<Node>, ghost trees: seq<Tree>)
      requires model.path == path && touchCount == |model.seen|
      requires Siblings(kids, trees, depth + 1) && this !in ReprOf(kids)
      modifies this
      ensures Valid() && Repr == {this} + old(ReprOf(kids)) && depth == old(depth)
      ensures model == Tree(old(model).path, old(model).seen, trees)
    {
      ghost var own := ReprOf(kids);
      forall i | 0 <= i < |kids| ensures this !in kids[i].Repr {
        assert kids[i].Repr <= own;
      }
      childNodes := kids;
      Repr := {this} + own;
      model := Tree(model.path, model.seen, trees);
      forall i | 0 <= i < |kids|
        ensures kids[i].Valid() && kids[i].Repr == old(kids[i].Repr)
        ensures kids[i].depth == old(kids[i].depth) && kids[i].model == old(kids[i].model)
      {
        Untouched(kids[i]);
      }
      BuildValid(this);
    }

    /** Takes over the counter and the children of a node at the same level. */
    method Absorb(c: Node)
      requires Valid() && c.Valid() && c.depth == depth && c.Repr !! Repr
      modifies this
      ensures Valid() && Repr == old(Repr) + (c.Repr - {c}) && depth == old(depth)
      ensures model == Tree(old(model).path, old(model).seen + c.model.seen, old(model).kids + c.model.kids)
    {
      touchCount := touchCount + c.touchCount;
      childNodes := childNodes + c.childNodes;
      model := Tree(model.path, model.seen + c.model.seen, model.kids + c.model.kids);
      Repr := Repr + (c.Repr - {c});
    }

    method ChildPaths() returns (paths: seq<string>)
      requires Valid()
      ensures |paths| == |model.kids| && forall k :: 0 <= k < |paths| ==> paths[k] == model.kids[k].path
    {
      paths := [];
      for i := 0 to |childNodes|
        invariant |paths| == i && forall k :: 0 <= k < i ==> paths[k] == model.kids[k].path
      {
        assert childNodes[i].Valid();
        paths := paths + [childNodes[i].path];
      }
    }

    /** Whether the children are to be replaced by a wildcard, and by which. */
    method ChooseWild(threshold: nat) returns (collapse: bool, wildPath: string)
      requires Valid()
      ensures collapse <==> |model.kids| > threshold && SameLength(model.kids)
      ensures collapse ==> wildPath == WildChild(model.kids).path
    {
      collapse, wildPath := false, "";
      if |childNodes| > threshold {
        var childPaths := ChildPaths();
        collapse := CheckSamePathLength(childPaths);
        var digits := CheckDigitsOnly(childPaths);
        wildPath := if digits then WILD_PATH_DIGIT else WILD_PATH_CHAR;
      }
    }

    /** Replaces the children, when there are too many of the same length, by one wildcard child. */
    method Collapse(threshold: nat)
      requires Valid()
      modifies this
      ensures Valid() && fresh(Repr - old(Repr)) && depth == old(depth)
      ensures CollapseStep(old(model), model, threshold)
    {
      var collapse, wildPath := ChooseWild(threshold);
      if collapse {
        var tempChild := NewWildChild(wildPath);
        SingleSibling(tempChild, depth + 1);
        Replace([tempChild], [tempChild.model]);
      }
    }

    method GetChildNodesCount() returns (count: int)
      requires Valid()
      ensures count == |Arrivals(model.kids)|
    {
      count := 0;
      for i := 0 to |childNodes|
        invariant count == |Arrivals(model.kids[..i])|
      {
        PoolStep(model.kids, i);
        assert childNodes[i].Valid() && childNodes[i].model == model.kids[i];
        count := count + childNodes[i].touchCount;
      }
      assert model.kids[..|childNodes|] == model.kids;
    }

    /** Adds the texts of this subtree to the results. */
    method GeneratePaths(results: ResultMap, parentPath: string)
      requires Valid()
      modifies results
      ensures results.keys == old(results.keys) + Printed(model, parentPath)
      decreases Repr
    {
      for i := 0 to |childNodes|
        invariant results.keys == old(results.keys) + PrintedKids(model.kids[..i], parentPath + path)
      {
        PrintedKidsStep(model.kids, i, parentPath + path);
        childNodes[i].GeneratePaths(results, parentPath + path);
      }
      assert model.kids[..|childNodes|] == model.kids;
      var count := GetChildNodesCount();
      if count == 0 {
        if IsWild(path) {
          if path == WILD_PATH_DIGIT {
            results.Add(parentPath + "/[0-9^/]+");
          } else {
            results.Add(parentPath + "/.[^/]+");
          }
        } else {
          results.Add(parentPath + path);
        }
      } else if touchCount > count {
        results.Add(parentPath + path);
      }
    }

    /** Children first, then the node itself. */
    method AggregateChildNodes(threshold: nat)
      requires Valid()
      modifies Repr
      ensures Valid() && fresh(Repr - old(Repr)) && depth == old(depth)
      ensures Aggregates(old(model), model, threshold)
      decreases model
    {
      ghost var start := model;
      for i := 0 to |childNodes|
        invariant Valid() && fresh(Repr - old(Repr)) && depth == old(depth)
        invariant childNodes == old(childNodes) && model == start.(kids := model.kids)
        invariant |model.kids| == |start.kids| == |childNodes|
        invariant forall k :: 0 <= k < i ==> Aggregates(start.kids[k], model.kids[k], threshold)
        invariant forall k :: i <= k < |childNodes| ==> model.kids[k] == start.kids[k]
      {
        AggregateChild(i, threshold, start);
      }
      ghost var mids := model.kids;
      Collapse(threshold);
      assert CollapseStep(start.(kids := mids), model, threshold);
    }

    method AggregateChild(i: nat, threshold: nat, ghost start: Tree)
      requires Valid() && i < |childNodes| && i < |start.kids| && model.kids[i] == start.kids[i]
      modifies Repr
      ensures Valid() && fresh(Repr - old(Repr)) && depth == old(depth) && childNodes == old(childNodes)
      ensures |model.kids| == |old(model).kids|
      ensures model == Tree(old(model).path, old(model).seen, old(model).kids[i := model.kids[i]])
      ensures Aggregates(start.kids[i], model.kids[i], threshold)
      decreases start, 0
    {
      hide Aggregates;
      childNodes[i].AggregateChildNodes(threshold);
      Refresh(i);
    }

    method NewWildChild(wildPath: string) returns (temp: Node)
      requires Valid()
      ensures temp.Valid() && fresh(temp.Repr - Repr) && this !in temp.Repr && temp.depth == depth + 1
      ensures temp.model.path == wildPath && temp.model.seen == Arrivals(model.kids)
      ensures MergesSame(GrandKids(model.kids), temp.model.kids)
    {
      temp := Gather(wildPath);
      ghost var gathered := temp.Repr;
      temp.MergeSameChildNodes();
      NewOnly(Repr, gathered, temp.Repr, temp);
    }

    /** A new node with the counters and the children of all children. */
    method Gather(wildPath: string) returns (temp: Node)
      requires Valid()
      ensures temp.Valid() && fresh(temp) && temp.Repr - {temp} <= Repr - {this} && temp.depth == depth + 1
      ensures temp.model == Tree(wildPath, Arrivals(model.kids), GrandKids(model.kids))
    {
      temp := new Node(wildPath, depth + 1, 0, []);
      for i := 0 to |childNodes|
        invariant temp.Valid() && fresh(temp) && temp.depth == depth + 1
        invariant temp.Repr - {temp} <= Repr - {this}
        invariant forall k :: i <= k < |childNodes| ==> temp.Repr !! childNodes[k].Repr
        invariant temp.model == Tree(wildPath, Arrivals(model.kids[..i]), GrandKids(model.kids[..i]))
      {
        PoolStep(model.kids, i);
        temp.Absorb(childNodes[i]);
      }
      assert model.kids[..|childNodes|] == model.kids;
    }

    method Touch(ghost p: Path)
      requires Valid()
      modifies this`touchCount, this`model
      ensures Valid() && model == old(model).(seen := old(model).seen + [p])
    {
      touchCount := touchCount + 1;
      model := model.(seen := model.seen + [p]);
    }
  }

  // ================================================================ siblings

  ghost function ReprOf(ns: seq<Node>): set<Node>
    reads ns
  {
    set i, o | 0 <= i < |ns| && o in ns[i].Repr :: o
  }

  /** Valid, separate nodes of one level with the given values. */
  ghost predicate Siblings(ns: seq<Node>, kids: seq<Tree>, depth: int)
    reads ns, ReprOf(ns)
  {
    && |ns| == |kids|
    && (forall i :: 0 <= i < |ns| ==> ns[i].Valid() && ns[i].depth == depth && ns[i].model == kids[i])
    && forall i, j :: 0 <= i < j < |ns| ==> ns[i].Repr !! ns[j].Repr
  }

  lemma ReprAppend(a: seq<Node>, b: seq<Node>)
    ensures ReprOf(a + b) == ReprOf(a) + ReprOf(b)
  {
    var ns := a + b;
    forall o ensures o in ReprOf(ns) <==> o in ReprOf(a) || o in ReprOf(b) {
      if o in ReprOf(a) {
        var i :| 0 <= i < |a| && o in a[i].Repr;
        assert o in ns[i].Repr;
      }
      if o in ReprOf(b) {
        var i :| 0 <= i < |b| && o in b[i].Repr;
        assert o in ns[|a| + i].Repr;
      }
    }
  }

  lemma SiblingsAppend(a: seq<Node>, ka: seq<Tree>, b: seq<Node>, kb: seq<Tree>, depth: int)
    requires Siblings(a, ka, depth) && Siblings(b, kb, depth) && ReprOf(a) !! ReprOf(b)
    ensures Siblings(a + b, ka + kb, depth) && ReprOf(a + b) == ReprOf(a) + ReprOf(b)
  {
    var ns := a + b;
    forall i | 0 <= i < |ns|
      ensures ns[i].Valid() && ns[i].depth == depth && ns[i].model == (ka + kb)[i]
      ensures i < |a| ==> ns[i].Repr <= ReprOf(a)
      ensures i >= |a| ==> ns[i].Repr <= ReprOf(b)
    {
      if i < |a| { assert ns[i] == a[i]; } else { assert ns[i] == b[i - |a|]; }
    }
    forall i, j | 0 <= i < j < |ns| ensures ns[i].Repr !! ns[j].Repr {
      if j < |a| { assert a[i].Repr !! a[j].Repr; }
      if i >= |a| { assert b[i - |a|].Repr !! b[j - |a|].Repr; }
    }
    ReprAppend(a, b);
  }

  /** A tree none of whose nodes changed is as it was. */
  twostate lemma Untouched(n: Node)
    requires old(n.Valid()) && forall o :: o in old(n.Repr) ==> unchanged(o)
    ensures n.Valid() && n.Repr == old(n.Repr) && n.model == old(n.model) && n.depth == old(n.depth)
  {
    assert n.Valid() == old(n.Valid());
  }

  /** A node over siblings that owns itself and them. */
  lemma BuildValid(n: Node)
    requires Siblings(n.childNodes, n.model.kids, n.depth + 1) && n !in ReprOf(n.childNodes)
    requires n.Repr == {n} + ReprOf(n.childNodes)
    requires n.model.path == n.path && n.touchCount == |n.model.seen|
    ensures n.Valid()
  {
    forall i | 0 <= i < |n.childNodes|
      ensures n.childNodes[i] in n.Repr && n.childNodes[i].Repr <= n.Repr - {n}
    {
      assert n.childNodes[i].Valid();
      assert n.childNodes[i].Repr <= ReprOf(n.childNodes);
    }
  }

  lemma NewOnly(all: set<Node>, gathered: set<Node>, own: set<Node>, t: Node)
    requires gathered - {t} <= all
    ensures own - all <= (own - gathered) + {t}
  {
  }

  lemma AlreadyMerged(kids: seq<Tree>)
    ensures DistinctPaths(kids) ==> MergesSame(kids, kids)
    ensures kids == [] ==> DistinctPaths(kids)
  {
  }

  lemma ChildrenAreSiblings(n: Node)
    requires n.Valid()
    ensures Siblings(n.childNodes, n.model.kids, n.depth + 1) && ReprOf(n.childNodes) <= n.Repr - {n}
    ensures n.model.path == n.path && n.touchCount == |n.model.seen| && n in n.Repr
    ensures n.childNodes == [] <==> n.model.kids == []
  {
  }

  /** The nodes with one path own this; different paths own separate things. */
  ghost function Region(ns: seq<Node>, paths: set<string>): set<Node>
    reads ns
  {
    set i, o | 0 <= i < |ns| && ns[i].path in paths && o in ns[i].Repr :: o
  }

  // ================================================================ uniting siblings

  /** The children of the nodes that have the path. */
  function ChildrenOf(ns: seq<Node>, path: string): seq<Node>
    reads ns
  {
    if ns == [] then []
    else ChildrenOf(ns[..|ns| - 1], path) + if ns[|ns| - 1].path == path then ns[|ns| - 1].childNodes else []
  }

  lemma {:induction false} ChildrenOfSiblings(ns: seq<Node>, kids: seq<Tree>, depth: int, path: string)
    requires Siblings(ns, kids, depth)
    ensures Siblings(ChildrenOf(ns, path), Group(kids, path).kids, depth + 1)
    ensures ReprOf(ChildrenOf(ns, path)) <= Region(ns, {path})
    decreases |ns|
  {
    if ns != [] {
      var last := |ns| - 1;
      var init := ns[..last];
      ChildrenOfSiblings(init, kids[..last], depth, path);
      GroupStep(kids, last, path);
      assert kids[..last + 1] == kids;
      assert Region(init, {path}) <= Region(ns, {path});
      if ns[last].path == path {
        ChildrenAreSiblings(ns[last]);
        assert forall i :: 0 <= i < last ==> init[i].Repr !! ns[last].Repr;
        assert ns[last].Repr <= Region(ns, {path});
        SiblingsAppend(ChildrenOf(init, path), Group(kids[..last], path).kids, ns[last].childNodes, kids[last].kids,
                       depth + 1);
      }
    }
  }

  ghost function KeysOf(kids: seq<Tree>, depth: int): set<MergedNode> {
    if kids == [] then {} else KeysOf(kids[..|kids| - 1], depth) + {MergedNode(kids[|kids| - 1].path, depth)}
  }

  lemma {:induction false} KeysOfMembers(kids: seq<Tree>, depth: int, key: MergedNode)
    ensures key in KeysOf(kids, depth) <==> key.depth == depth && key.path in PathsOf(kids)
  {
    if kids != [] {
      var last := |kids| - 1;
      KeysOfMembers(kids[..last], depth, key);
      assert kids == kids[..last] + [kids[last]];
      assert PathsOf(kids) == PathsOf(kids[..last]) + {kids[last].path};
    }
  }

  /** Every key holds the pooled children and the summed counter of its path. */
  ghost predicate Pooled(ns: seq<Node>, kids: seq<Tree>, key: MergedNode, nodes: seq<Node>, count: int)
    reads ns
  {
    nodes == ChildrenOf(ns, key.path) && count == |Group(kids, key.path).seen|
  }

  ghost predicate Grouped(ns: seq<Node>, kids: seq<Tree>, depth: int,
                          nodeMap: map<MergedNode, seq<Node>>, counts: map<MergedNode, int>)
    reads ns
  {
    && nodeMap.Keys == KeysOf(kids, depth) && counts.Keys == KeysOf(kids, depth)
    && forall key :: key in KeysOf(kids, depth) ==> Pooled(ns, kids, key, nodeMap[key], counts[key])
  }

  lemma PooledStep(ns: seq<Node>, kids: seq<Tree>, i: nat, depth: int, key: MergedNode, nodes: seq<Node>, count: int)
    requires i < |ns| == |kids| && ns[i].path == kids[i].path && ns[i].touchCount == |kids[i].seen|
    requires Pooled(ns[..i], kids[..i], key, nodes, count)
    ensures key.path == ns[i].path ==>
      Pooled(ns[..i + 1], kids[..i + 1], key, nodes + ns[i].childNodes, count + ns[i].touchCount)
    ensures key.path != ns[i].path ==> Pooled(ns[..i + 1], kids[..i + 1], key, nodes, count)
  {
    GroupStep(kids, i, key.path);
    assert ns[..i + 1][..i] == ns[..i];
  }

  lemma {:induction false} AbsentPool(ns: seq<Node>, kids: seq<Tree>, key: MergedNode)
    requires |ns| == |kids| && forall j :: 0 <= j < |ns| ==> kids[j].path != key.path && ns[j].path == kids[j].path
    ensures Pooled(ns, kids, key, [], 0)
    decreases |ns|
  {
    if ns != [] {
      var last := |ns| - 1;
      AbsentPool(ns[..last], kids[..last], key);
      GroupStep(kids, last, key.path);
      assert kids[..last + 1] == kids;
    }
  }

  lemma KeysOfStep(kids: seq<Tree>, i: nat, depth: int)
    requires i < |kids|
    ensures KeysOf(kids[..i + 1], depth) == KeysOf(kids[..i], depth) + {MergedNode(kids[i].path, depth)}
    ensures DistinctPaths(kids[..i + 1]) <==>
            DistinctPaths(kids[..i]) && MergedNode(kids[i].path, depth) !in KeysOf(kids[..i], depth)
  {
    var key := MergedNode(kids[i].path, depth);
    assert kids[..i + 1][..i] == kids[..i];
    KeysOfMembers(kids[..i], depth, key);
    assert forall a :: 0 <= a < i ==> kids[..i][a] == kids[a];
    if key in KeysOf(kids[..i], depth) {
      var k :| k in kids[..i] && k.path == key.path;
      var a :| 0 <= a < i && kids[..i][a] == k;
      assert kids[..i + 1][a].path == kids[..i + 1][i].path;
    } else {
      forall a | 0 <= a < i ensures kids[a].path != kids[i].path {
        assert kids[..i][a] in kids[..i];
        assert kids[..i][a].path in PathsOf(kids[..i]);
      }
    }
    assert DistinctPaths(kids[..i + 1]) ==> DistinctPaths(kids[..i]) by {
      assert forall a :: 0 <= a < i ==> kids[..i + 1][a] == kids[..i][a];
    }
  }

  /** The first loop of the merge: grandchildren and counters by path. */
  method GroupChildren(ns: seq<Node>, ghost kids: seq<Tree>, ghost depth: int)
      returns (nodeMap: map<MergedNode, seq<Node>>, counts: map<MergedNode, int>, merged: bool)
    requires Siblings(ns, kids, depth)
    ensures merged <==> !DistinctPaths(kids)
    ensures Grouped(ns, kids, depth, nodeMap, counts)
  {
    nodeMap, counts, merged := map[], map[], false;
    for i := 0 to |ns|
      invariant merged <==> !DistinctPaths(kids[..i])
      invariant Grouped(ns[..i], kids[..i], depth, nodeMap, counts)
    {
      assert ns[i].Valid() && ns[i].depth == depth && ns[i].model == kids[i];
      nodeMap, counts, merged := GroupOne(ns, kids, depth, i, nodeMap, counts, merged);
    }
    assert ns[..|ns|] == ns && kids[..|ns|] == kids;
  }

  method GroupOne(ns: seq<Node>, ghost kids: seq<Tree>, ghost depth: int, i: nat,
                  nodeMap0: map<MergedNode, seq<Node>>, counts0: map<MergedNode, int>, merged0: bool)
      returns (nodeMap: map<MergedNode, seq<Node>>, counts: map<MergedNode, int>, merged: bool)
    requires i < |ns| == |kids| && ns[i].depth == depth
    requires forall j :: 0 <= j <= i ==> ns[j].path == kids[j].path
    requires ns[i].touchCount == |kids[i].seen|
    requires merged0 <==> !DistinctPaths(kids[..i])
    requires Grouped(ns[..i], kids[..i], depth, nodeMap0, counts0)
    ensures merged <==> !DistinctPaths(kids[..i + 1])
    ensures Grouped(ns[..i + 1], kids[..i + 1], depth, nodeMap, counts)
  {
    var childNode := ns[i];
    var temp := MergedNode(childNode.path, childNode.depth);
    KeysOfStep(kids, i, depth);
    if temp in nodeMap0 {
      nodeMap := nodeMap0[temp := nodeMap0[temp] + childNode.childNodes];
      counts := counts0[temp := counts0[temp] + childNode.touchCount];
      merged := true;
      PooledStep(ns, kids, i, depth, temp, nodeMap0[temp], counts0[temp]);
    } else {
      nodeMap := nodeMap0[temp := childNode.childNodes];
      counts := counts0[temp := 0 + childNode.touchCount];
      merged := merged0;
      NewPool(ns, kids, i, depth);
    }
    GroupedWith(ns, kids, i, depth, nodeMap0, counts0, nodeMap[temp], counts[temp]);
  }

  lemma GroupedWith(ns: seq<Node>, kids: seq<Tree>, i: nat, depth: int,
                    nodeMap: map<MergedNode, seq<Node>>, counts: map<MergedNode, int>, nodes: seq<Node>, count: int)
    requires i < |ns| == |kids| && Grouped(ns[..i], kids[..i], depth, nodeMap, counts)
    requires ns[i].path == kids[i].path && ns[i].touchCount == |kids[i].seen|
    requires Pooled(ns[..i + 1], kids[..i + 1], MergedNode(ns[i].path, depth), nodes, count)
    ensures Grouped(ns[..i + 1], kids[..i + 1], depth,
                    nodeMap[MergedNode(ns[i].path, depth) := nodes], counts[MergedNode(ns[i].path, depth) := count])
  {
    KeysOfStep(kids, i, depth);
    OtherPools(ns, kids, i, depth, nodeMap, counts);
    hide Pooled, KeysOf;
    GroupedFrom(ns[..i + 1], kids[..i + 1], depth, MergedNode(ns[i].path, depth), nodeMap, counts, nodes, count);
  }

  lemma GroupedFrom(ns: seq<Node>, kids: seq<Tree>, depth: int, key: MergedNode,
                    nodeMap: map<MergedNode, seq<Node>>, counts: map<MergedNode, int>, nodes: seq<Node>, count: int)
    requires nodeMap.Keys == counts.Keys && KeysOf(kids, depth) == nodeMap.Keys + {key}
    requires Pooled(ns, kids, key, nodes, count)
    requires forall k :: k in nodeMap && k != key ==> Pooled(ns, kids, k, nodeMap[k], counts[k])
    ensures Grouped(ns, kids, depth, nodeMap[key := nodes], counts[key := count])
  {
    hide Pooled, KeysOf;
  }

  lemma OtherPools(ns: seq<Node>, kids: seq<Tree>, i: nat, depth: int,
                   nodeMap: map<MergedNode, seq<Node>>, counts: map<MergedNode, int>)
    requires i < |ns| == |kids| && Grouped(ns[..i], kids[..i], depth, nodeMap, counts)
    requires ns[i].path == kids[i].path && ns[i].touchCount == |kids[i].seen|
    ensures forall key :: key in KeysOf(kids[..i], depth) && key != MergedNode(ns[i].path, depth) ==>
              Pooled(ns[..i + 1], kids[..i + 1], key, nodeMap[key], counts[key])
  {
    forall key | key in KeysOf(kids[..i], depth) && key != MergedNode(ns[i].path, depth)
      ensures Pooled(ns[..i + 1], kids[..i + 1], key, nodeMap[key], counts[key])
    {
      KeysOfMembers(kids[..i], depth, key);
      PooledStep(ns, kids, i, depth, key, nodeMap[key], counts[key]);
    }
  }

  lemma NewPool(ns: seq<Node>, kids: seq<Tree>, i: nat, depth: int)
    requires i < |ns| == |kids| && ns[i].touchCount == |kids[i].seen|
    requires forall j :: 0 <= j <= i ==> ns[j].path == kids[j].path
    requires MergedNode(ns[i].path, depth) !in KeysOf(kids[..i], depth)
    ensures Pooled(ns[..i + 1], kids[..i + 1], MergedNode(ns[i].path, depth), ns[i].childNodes, ns[i].touchCount)
  {
    var key := MergedNode(ns[i].path, depth);
    KeysOfMembers(kids[..i], depth, key);
    forall j | 0 <= j < i ensures kids[..i][j].path != key.path {
      assert kids[..i][j] in kids[..i];
      assert kids[..i][j].path in PathsOf(kids[..i]);
    }
    AbsentPool(ns[..i], kids[..i], key);
    PooledStep(ns, kids, i, depth, key, [], 0);
    assert [] + ns[i].childNodes == ns[i].childNodes;
  }

  /** The second loop of the merge: one new child per path, in the order of the hash map. */
  method RebuildChildren(ns: seq<Node>, ghost kids: seq<Tree>, ghost depth: int,
                         nodeMap: map<MergedNode, seq<Node>>, counts: map<MergedNode, int>)
      returns (newKids: seq<Node>, ghost trees: seq<Tree>)
    requires Siblings(ns, kids, depth) && Grouped(ns, kids, depth, nodeMap, counts)
    requires !DistinctPaths(kids)
    ensures Siblings(newKids, trees, depth) && fresh(ReprOf(newKids) - ReprOf(ns))
    ensures MergesSame(kids, trees)
  {
    hide *;
    newKids, trees := [], [];
    ghost var made: set<Node>, done: set<MergedNode> := {}, {};
    NothingRebuilt(ns, kids, depth, nodeMap, counts);
    var todo := nodeMap.Keys;
    while todo != {}
      invariant todo + done == KeysOf(kids, depth) && todo !! done
      invariant Siblings(ns, kids, depth) && Grouped(ns, kids, depth, nodeMap, counts)
      invariant fresh(made) && made !! ReprOf(ns)
      invariant Siblings(newKids, trees, depth)
      invariant ReprOf(newKids) <= Region(ns, PathsOf(trees)) + made
      invariant Rebuilt(kids, depth, trees, done)
      decreases |todo|
    {
      var key :| key in todo;
      ghost var k;
      newKids, trees, k := AddGroup(ns, kids, depth, key, nodeMap, counts, done, newKids, trees, made);
      made, done, todo := made + {k}, done + {key}, todo - {key};
    }
    RebuiltAll(kids, depth, trees);
    RegionWithin(ns, PathsOf(trees));
  }

  lemma RegionWithin(ns: seq<Node>, paths: set<string>)
    ensures Region(ns, paths) <= ReprOf(ns)
  {
  }

  method AddGroup(ns: seq<Node>, ghost kids: seq<Tree>, ghost depth: int,
                  key: MergedNode, nodeMap: map<MergedNode, seq<Node>>, counts: map<MergedNode, int>,
                  ghost done: set<MergedNode>,
                  newKids0: seq<Node>, ghost trees0: seq<Tree>, ghost made: set<Node>)
      returns (newKids: seq<Node>, ghost trees: seq<Tree>, ghost k: Node)
    requires Siblings(ns, kids, depth) && Grouped(ns, kids, depth, nodeMap, counts)
    requires key in KeysOf(kids, depth) - done && Rebuilt(kids, depth, trees0, done)
    requires Siblings(newKids0, trees0, depth)
    requires ReprOf(newKids0) <= Region(ns, PathsOf(trees0)) + made && ReprOf(ns) !! made
    ensures Siblings(ns, kids, depth) && Grouped(ns, kids, depth, nodeMap, counts)
    ensures fresh(k) && k !in ReprOf(ns) + made
    ensures Siblings(newKids, trees, depth) && Rebuilt(kids, depth, trees, done + {key})
    ensures ReprOf(newKids) <= Region(ns, PathsOf(trees)) + made + {k}
  {
    hide Node.Valid, Grouped, Rebuilt, KeysOf, Region, Group;
    KeysOfMembers(kids, depth, key);
    GroupedAt(ns, kids, depth, key, nodeMap, counts);
    ghost var others := made + ReprOf(ns);
    var k0 := NewGroup(ns, kids, depth, key, nodeMap[key], counts[key]);
    RebuildStep(kids, depth, trees0, done, key, k0.model);
    SeparateGroup(ns, kids, depth, key.path, newKids0, trees0, made, k0);
    newKids, trees, k := newKids0 + [k0], trees0 + [k0.model], k0;
  }

  lemma SeparateGroup(ns: seq<Node>, kids: seq<Tree>, depth: int, path: string,
                      newKids: seq<Node>, trees: seq<Tree>, made: set<Node>, k: Node)
    requires Siblings(ns, kids, depth) && Siblings(newKids, trees, depth)
    requires ReprOf(newKids) <= Region(ns, PathsOf(trees)) + made && ReprOf(ns) !! made
    requires k.Valid() && k.depth == depth && k !in made + ReprOf(ns) && k.Repr - {k} <= Region(ns, {path})
    requires path !in PathsOf(trees)
    requires PathsOf(trees + [k.model]) == PathsOf(trees) + {path}
    ensures Siblings(newKids + [k], trees + [k.model], depth)
    ensures ReprOf(newKids + [k]) <= Region(ns, PathsOf(trees + [k.model])) + made + {k}
  {
    RegionStep(ns, kids, depth, PathsOf(trees), path);
    RegionWithin(ns, {path});
    RegionWithin(ns, PathsOf(trees));
    SingleSibling(k, depth);
    DisjointParts(ReprOf(newKids), Region(ns, PathsOf(trees)), made, k.Repr, Region(ns, {path}), k);
    SiblingsAppend(newKids, trees, [k], [k.model], depth);
  }

  lemma DisjointParts(a: set<Node>, r: set<Node>, made: set<Node>, b: set<Node>, q: set<Node>, k: Node)
    requires a <= r + made && b - {k} <= q && r !! q && q !! made && k !in r + made
    ensures a !! b
  {
  }

  lemma GroupedAt(ns: seq<Node>, kids: seq<Tree>, depth: int, key: MergedNode,
                  nodeMap: map<MergedNode, seq<Node>>, counts: map<MergedNode, int>)
    requires Grouped(ns, kids, depth, nodeMap, counts) && key in KeysOf(kids, depth)
    ensures key in nodeMap && key in counts && Pooled(ns, kids, key, nodeMap[key], counts[key])
  {
  }

  lemma NothingRebuilt(ns: seq<Node>, kids: seq<Tree>, depth: int,
                       nodeMap: map<MergedNode, seq<Node>>, counts: map<MergedNode, int>)
    requires Grouped(ns, kids, depth, nodeMap, counts)
    ensures nodeMap.Keys == KeysOf(kids, depth)
    ensures Siblings([], [], depth) && Rebuilt(kids, depth, [], {})
    ensures ReprOf([]) == {}
  {
  }

  /** The trees are the groups of the keys, each once. */
  ghost predicate Rebuilt(kids: seq<Tree>, depth: int, trees: seq<Tree>, keys: set<MergedNode>) {
    && DistinctPaths(trees)
    && (forall i :: 0 <= i < |trees| ==> trees[i] == Group(kids, trees[i].path))
    && forall key :: key in keys <==> key.depth == depth && key.path in PathsOf(trees)
  }

  lemma RebuildStep(kids: seq<Tree>, depth: int, trees: seq<Tree>, keys: set<MergedNode>, key: MergedNode, t: Tree)
    requires Rebuilt(kids, depth, trees, keys) && key !in keys && key.depth == depth
    requires t == Group(kids, key.path)
    ensures Rebuilt(kids, depth, trees + [t], keys + {key})
    ensures key.path !in PathsOf(trees) && PathsOf(trees + [t]) == PathsOf(trees) + {key.path}
  {
    assert PathsOf(trees + [t]) == PathsOf(trees) + {t.path};
    assert forall i :: 0 <= i < |trees| ==> trees[i] in trees && trees[i].path in PathsOf(trees);
  }

  lemma RebuiltAll(kids: seq<Tree>, depth: int, trees: seq<Tree>)
    requires Rebuilt(kids, depth, trees, KeysOf(kids, depth)) && !DistinctPaths(kids)
    ensures MergesSame(kids, trees)
  {
    forall p ensures p in PathsOf(trees) <==> p in PathsOf(kids) {
      KeysOfMembers(kids, depth, MergedNode(p, depth));
      assert MergedNode(p, depth) in KeysOf(kids, depth) <==> p in PathsOf(trees);
    }
  }

  lemma RegionStep(ns: seq<Node>, kids: seq<Tree>, depth: int, paths: set<string>, p: string)
    requires Siblings(ns, kids, depth) && p !in paths
    ensures Region(ns, paths) !! Region(ns, {p})
    ensures Region(ns, paths + {p}) == Region(ns, paths) + Region(ns, {p})
    ensures Region(ns, paths + {p}) <= ReprOf(ns)
  {
  }

  lemma SingleSibling(k: Node, depth: int)
    requires k.Valid() && k.depth == depth
    ensures Siblings([k], [k.model], depth) && ReprOf([k]) == k.Repr
  {
    var ns := [k];
    forall o ensures o in ReprOf(ns) <==> o in k.Repr {
      if o in k.Repr { assert o in ns[0].Repr; }
    }
  }

  method NewGroup(ns: seq<Node>, ghost kids: seq<Tree>, ghost depth: int,
                  key: MergedNode, nodes: seq<Node>, count: int) returns (k: Node)
    requires Siblings(ns, kids, depth) && key.depth == depth && Pooled(ns, kids, key, nodes, count)
    ensures k.Valid() && fresh(k) && k.depth == depth && k.model == Group(kids, key.path)
    ensures k.Repr - {k} <= Region(ns, {key.path})
  {
    ChildrenOfSiblings(ns, kids, depth, key.path);
    k := new Node.Over(key.path, key.depth, count, nodes, Group(kids, key.path));
  }

  // ================================================================ tests on sibling texts

  /** At most one distinct length. */
  method CheckSamePathLength(paths: seq<string>) returns (same: bool)
    ensures same <==> forall i, j :: 0 <= i < j < |paths| ==> |paths[i]| == |paths[j]|
  {
    var pathLength: set<int> := {};
    for i := 0 to |paths|
      invariant i == 0 ==> pathLength == {}
      invariant forall k :: 0 <= k < i ==> |paths[k]| in pathLength
      invariant forall n :: n in pathLength ==> exists k :: 0 <= k < i && |paths[k]| == n
    {
      pathLength := pathLength + {|paths[i]|};
    }
    same := |pathLength| <= 1;
    if same {
      forall i, j | 0 <= i < j < |paths| ensures |paths[i]| == |paths[j]| {
        assert |pathLength - {|paths[i]|}| == 0;
        assert |paths[j]| !in pathLength - {|paths[i]|};
      }
    }
    if paths != [] && forall i, j :: 0 <= i < j < |paths| ==> |paths[i]| == |paths[j]| {
      assert forall k :: 0 <= k < |paths| ==> |paths[0]| == |paths[k]|;
      forall n | n in pathLength ensures n == |paths[0]| {
        var k :| 0 <= k < |paths| && |paths[k]| == n;
      }
      assert pathLength == {} || pathLength == {|paths[0]|};
    }
  }

  method CheckDigitsOnly(paths: seq<string>) returns (isDigit: bool)
    ensures isDigit <==> forall i :: 0 <= i < |paths| ==> AtoiOk(WithoutSlash(paths[i]))
  {
    isDigit := true;
    for i := 0 to |paths|
      invariant isDigit <==> forall k :: 0 <= k < i ==> AtoiOk(WithoutSlash(paths[k]))
    {
      if !AtoiOk(WithoutSlash(paths[i])) {
        isDigit := false;
      }
    }
  }

  lemma VisitFresh(p: Path)
    requires p != []
    ensures Visit(Fresh(p[0]), p) == Tree(p[0], [p], InsertBelow([], p[1..]))
  {
    var none: seq<Path> := [];
    assert none + [p] == [p];
  }

  lemma {:induction false} FindIs(kids: seq<Tree>, s: string, i: nat)
    requires i <= |kids|
    requires forall k :: 0 <= k < i ==> !ChildMatches(kids[k].path, s)
    requires i < |kids| ==> ChildMatches(kids[i].path, s)
    ensures Find(kids, s) == i
  {
    if i > 0 { FindIs(kids[1..], s, i - 1); }
  }

  // ================================================================ the map of roots

  /** Valid, separate roots with the given values. */
  ghost predicate Roots(m: map<string, Node>, f: Forest, own: set<Node>)
    reads own
  {
    && m.Keys == f.Keys
    && (forall r :: r in m ==> m[r] in own && m[r].Repr <= own)
    && (forall r :: r in m ==> m[r].Valid() && m[r].depth == 0 && m[r].model == f[r])
    && forall r, s :: r in m && s in m && r != s ==> m[r].Repr !! m[s].Repr
  }

  /** The roots after one of them got a new tree. */
  lemma RootsWith(m: map<string, Node>, f: Forest, own: set<Node>, r: string, n: Node)
    requires m.Keys == f.Keys && n.Valid() && n.depth == 0
    requires forall s :: s in m && s != r ==> m[s] in own && m[s].Repr <= own
    requires forall s :: s in m && s != r ==> m[s].Valid() && m[s].depth == 0 && m[s].model == f[s]
    requires forall s :: s in m && s != r ==> m[s].Repr !! n.Repr
    requires forall s, t :: s in m && t in m && s != r && t != r && s != t ==> m[s].Repr !! m[t].Repr
    ensures Roots(m[r := n], f[r := n.model], own + n.Repr)
  {
  }

  /** The map of roots that lives on between rounds. */
  class PathForest {
    var treeMap: map<string, Node>
    ghost var forest: Forest
    ghost var Repr: set<Node>

    ghost predicate Valid()
      reads this, Repr
    {
      Roots(treeMap, forest, Repr)
    }

    constructor ()
      ensures Valid() && forest == map[] && Repr == {}
    {
      treeMap, forest, Repr := map[], map[], {};
    }

    /** Inserts one tokenized path. */
    method InsertTokens(p: Path)
      requires Valid() && p != []
      modifies this, Repr
      ensures Valid() && fresh(Repr - old(Repr)) && forest == VisitRoot(old(forest), p)
    {
      var rootPath := p[0];
      if rootPath !in treeMap {
        InsertNewRoot(p);
      } else {
        InsertIntoRoot(p);
      }
    }

    method InsertNewRoot(p: Path)
      requires Valid() && p != [] && p[0] !in treeMap
      modifies this, Repr
      ensures Valid() && fresh(Repr - old(Repr)) && forest == VisitRoot(old(forest), p)
    {
      hide Node.Valid, InsertBelow;
      VisitFresh(p);
      var newRoot := new Node(p[0], 0, 1, [p]);
      newRoot.Insert(p[1..]);
      forall s | s in treeMap
        ensures treeMap[s].Valid() && treeMap[s].Repr == old(treeMap[s].Repr)
        ensures treeMap[s].depth == old(treeMap[s].depth) && treeMap[s].model == old(treeMap[s].model)
      {
        Untouched(treeMap[s]);
      }
      RootsWith(treeMap, forest, Repr, p[0], newRoot);
      SetRoot(p[0], newRoot);
    }

    method InsertIntoRoot(p: Path)
      requires Valid() && p != [] && p[0] in treeMap
      modifies this, Repr
      ensures Valid() && fresh(Repr - old(Repr)) && forest == VisitRoot(old(forest), p)
    {
      hide Node.Valid, InsertBelow;
      var rootNode := treeMap[p[0]];
      rootNode.Touch(p);
      rootNode.Insert(p[1..]);
      forall s | s in treeMap && s != p[0]
        ensures treeMap[s].Valid() && treeMap[s].Repr == old(treeMap[s].Repr)
        ensures treeMap[s].depth == old(treeMap[s].depth) && treeMap[s].model == old(treeMap[s].model)
      {
        Untouched(treeMap[s]);
      }
      RootsWith(treeMap, forest, Repr, p[0], rootNode);
      SetRoot(p[0], rootNode);
    }

    method SetRoot(r: string, n: Node)
      requires Roots(treeMap[r := n], forest[r := n.model], Repr + n.Repr)
      modifies this
      ensures Valid() && forest == old(forest)[r := n.model] && Repr == old(Repr) + n.Repr
    {
      hide Node.Valid;
      treeMap, forest, Repr := treeMap[r := n], forest[r := n.model], Repr + n.Repr;
    }

    /** Inserts the sorted paths; the root path "/" is skipped. The first token of any other path is read
        without a check, which panics at a path that has none. */
    method BuildPathTree(paths: seq<string>) returns (panics: bool)
      requires Valid()
      modifies this, Repr
      ensures Valid() && fresh(Repr - old(Repr)) && (panics <==> !Usable(paths))
      ensures !panics ==> forest == InsertAll(old(forest), Inserted(paths))
    {
      var sorted := LexSort(paths);
      SortedUsable(paths);
      for i := 0 to |sorted|
        invariant Valid() && fresh(Repr - old(Repr))
        invariant Usable(sorted[..i]) && NoneEmpty(TokensOf(sorted[..i]))
        invariant forest == InsertAll(old(forest), TokensOf(sorted[..i]))
      {
        if sorted[i] != "/" && |Tokenize(sorted[i])| == 0 {
          return true;
        }
        BuildStep(old(forest), sorted, i);
        if sorted[i] == "/" {
          continue;
        }
        InsertTokens(Tokenize(sorted[i]));
      }
      assert sorted[..|sorted|] == sorted;
      panics := false;
    }

    /** Aggregates the tree of one root. */
    method AggregateRoot(r: string, threshold: nat)
      requires Valid() && r in treeMap
      modifies this, Repr
      ensures Valid() && fresh(Repr - old(Repr)) && treeMap.Keys == old(treeMap).Keys
      ensures r in forest && r in old(forest) && forest == old(forest)[r := forest[r]]
      ensures Aggregates(old(forest)[r], forest[r], threshold)
    {
      hide Node.Valid, Aggregates;
      var root := treeMap[r];
      root.AggregateChildNodes(threshold);
      forall s | s in treeMap && s != r
        ensures treeMap[s].Valid() && treeMap[s].Repr == old(treeMap[s].Repr)
        ensures treeMap[s].depth == old(treeMap[s].depth) && treeMap[s].model == old(treeMap[s].model)
      {
        Untouched(treeMap[s]);
      }
      RootsWith(treeMap, forest, Repr, r, root);
      SetRoot(r, root);
    }

    /** Aggregates every tree, in the order of the hash map. */
    method AggregateRoots(threshold: nat)
      requires Valid()
      modifies this, Repr
      ensures Valid() && fresh(Repr - old(Repr)) && AggregatesAll(old(forest), forest, threshold)
    {
      AggregateEach(threshold);
    }

    method AggregateEach(threshold: nat)
      requires Valid() && treeMap.Keys == forest.Keys
      modifies this, Repr
      ensures Valid() && fresh(Repr - old(Repr)) && forest.Keys == old(forest).Keys
      ensures forall r :: r in old(forest).Keys ==> Aggregates(old(forest)[r], forest[r], threshold)
    {
      hide *;
      ghost var start := forest;
      var todo := treeMap.Keys;
      while todo != {}
        invariant Valid() && fresh(Repr - old(Repr)) && todo <= treeMap.Keys
        invariant forest.Keys == treeMap.Keys == start.Keys
        invariant forall r :: r in todo ==> forest[r] == start[r]
        invariant forall r :: r in start.Keys && r !in todo ==> Aggregates(start[r], forest[r], threshold)
        decreases |todo|
      {
        var r :| r in todo;
        AggregateRoot(r, threshold);
        todo := todo - {r};
      }
    }

    /** Prints every tree. */
    method PrintRoots(results: ResultMap)
      requires Valid() && results.keys == {}
      modifies results
      ensures results.keys == PrintedForest(forest)
    {
      var todo := treeMap.Keys;
      while todo != {}
        invariant todo <= treeMap.Keys
        invariant forall x :: x in results.keys <==>
          exists r :: r in forest && r !in todo && x in Printed(forest[r], "")
        decreases |todo|
      {
        var r :| r in todo;
        treeMap[r].GeneratePaths(results, "");
        todo := todo - {r};
      }
    }

    /** One round: insert the batch, merge siblings, print. The printed texts come in any order and
        once each; then "/" once for each time it occurs in the batch. */
    method AggregatePaths(paths: seq<string>, threshold: nat)
        returns (results: seq<string>, panics: bool, ghost printed: nat)
      requires Valid()
      modifies this, Repr
      ensures Valid() && fresh(Repr - old(Repr)) && (panics <==> !Usable(paths))
      ensures !panics ==> Round(old(forest), paths, forest, threshold)
      ensures !panics ==> ListsPrinted(results, printed, forest, paths)
    {
      hide *;
      panics := BuildPathTree(paths);
      if panics {
        return [], true, 0;
      }
      ghost var built := forest;
      AggregateRoots(threshold);
      IsRound(old(forest), paths, built, forest, threshold);
      var aggregatedPaths := new ResultMap();
      PrintRoots(aggregatedPaths);
      var printedPaths := ListOf(aggregatedPaths.keys);
      var rootPaths := PickRootPaths(LexSort(paths));
      results, printed := printedPaths + rootPaths, |printedPaths|;
      ListedInOrder(printedPaths, rootPaths, forest, paths);
    }
  }

  /** The printed texts of the forest, each once, then the root paths of the batch. */
  ghost predicate ListsPrinted(results: seq<string>, printed: nat, f: Forest, paths: seq<string>) {
    && printed == |PrintedForest(f)| <= |results|
    && (forall x :: x in results[..printed] <==> x in PrintedForest(f))
    && results[printed..] == RootPaths(LexSort(paths))
  }

  lemma ListedInOrder(list: seq<string>, roots: seq<string>, f: Forest, paths: seq<string>)
    requires (forall x :: x in list <==> x in PrintedForest(f)) && |list| == |PrintedForest(f)|
    requires roots == RootPaths(LexSort(paths))
    ensures ListsPrinted(list + roots, |list|, f, paths)
  {
    assert (list + roots)[..|list|] == list && (list + roots)[|list|..] == roots;
  }

  /** The trees as they live on from round to round, with what has happened to them. */
  class PathHistory {
    const trees: PathForest
    ghost var states: seq<Forest>
    ghost var batches: seq<seq<string>>
    ghost var thresholds: seq<nat>

    ghost predicate Valid()
      reads this, trees, trees.Repr
    {
      trees.Valid() && Rounds(states, batches, thresholds) && states[|batches|] == trees.forest
    }

    constructor ()
      ensures Valid() && batches == []
    {
      trees := new PathForest();
      states, batches, thresholds := [map[]], [], [];
    }

    /** One more round. Every coverable path of this and of all earlier rounds matches a listed pattern,
        and every listed pattern stems from a path of them, which matches it if it is coverable. */
    method AggregatePaths(paths: seq<string>, threshold: nat)
        returns (results: seq<string>, panics: bool, ghost printed: nat)
      requires Valid()
      modifies this, trees, trees.Repr
      ensures panics <==> !Usable(paths)
      ensures !panics ==> Valid() && batches == old(batches) + [paths]
      ensures !panics ==> ListsPrinted(results, printed, trees.forest, paths)
      ensures !panics ==> Covers(results, batches) && Justified(results[..printed], batches)
    {
      hide Rounds, Round, ListsPrinted, Covers, Justified, Usable, Roots;
      results, panics, printed := trees.AggregatePaths(paths, threshold);
      if panics {
        return;
      }
      RoundsStep(states, batches, thresholds, paths, trees.forest, threshold);
      states, batches, thresholds := states + [trees.forest], batches + [paths], thresholds + [threshold];
      ListedIsCovered(states, batches, thresholds, results, printed);
    }
  }

  /** Every coverable path of the batches, other than "/", matches a pattern among the texts. */
  ghost predicate Covers(texts: seq<string>, batches: seq<seq<string>>) {
    forall p :: Offered(batches, p) && Coverable(p) ==> exists q :: Matches(q, p) && IsText(q, texts)
  }

  ghost predicate IsText(q: Pattern, texts: seq<string>) {
    q.segs != [] && Render(q) in texts
  }

  /** Every text is that of a pattern that stems from a path of the batches. */
  ghost predicate Justified(texts: seq<string>, batches: seq<seq<string>>) {
    forall x :: x in texts ==> exists q, p :: Offered(batches, p) && StemsFrom(x, q, p)
  }

  ghost predicate StemsFrom(x: string, q: Pattern, p: Path) {
    q.segs != [] && Render(q) == x && |q.segs| == |p| && (Coverable(p) ==> Matches(q, p))
  }

  lemma ListedIsCovered(fs: seq<Forest>, batches: seq<seq<string>>, ths: seq<nat>, results: seq<string>, printed: nat)
    requires Rounds(fs, batches, ths) && batches != []
    requires ListsPrinted(results, printed, fs[|batches|], batches[|batches| - 1])
    ensures Covers(results, batches) && Justified(results[..printed], batches)
  {
    var f := fs[|batches|];
    hide Rounds, Offered, Matches, PrintedForest, PrintsPattern, Coverable;
    forall p | Offered(batches, p) && Coverable(p) ensures exists q :: Matches(q, p) && IsText(q, results) {
      var q := EveryPathIsCovered(fs, batches, ths, p);
      assert Render(q) in results[..printed];
    }
    forall x | x in results[..printed] ensures exists q, p :: Offered(batches, p) && StemsFrom(x, q, p) {
      PrintedTexts(f, x);
      var q :| PrintsPattern(f, q) && q.segs != [] && Render(q) == x;
      var p := EveryPatternIsJustified(fs, batches, ths, q);
      assert StemsFrom(x, q, p);
    }
  }

  lemma SortedUsable(paths: seq<string>)
    ensures Usable(LexSort(paths)) <==> Usable(paths)
  {
    LexSortMembers(paths);
    UsableMembers(LexSort(paths));
    UsableMembers(paths);
  }

  lemma UsableMembers(batch: seq<string>)
    ensures Usable(batch) <==> forall s :: s in batch ==> s == "/" || Tokenize(s) != []
  {
    if Usable(batch) {
      forall s | s in batch ensures s == "/" || Tokenize(s) != [] {
        var i :| 0 <= i < |batch| && batch[i] == s;
      }
    }
    assert forall i :: 0 <= i < |batch| ==> batch[i] in batch;
  }

  /** The keys of a map, in the order of an iteration over it. */
  method ListOf(keys: set<string>) returns (list: seq<string>)
    ensures (forall x :: x in list <==> x in keys) && |list| == |keys|
  {
    list := [];
    var todo := keys;
    while todo != {}
      invariant todo <= keys
      invariant forall x :: x in list <==> x in keys && x !in todo
      invariant |list| + |todo| == |keys|
      decreases |todo|
    {
      var path :| path in todo;
      list, todo := list + [path], todo - {path};
    }
  }

  method PickRootPaths(paths: seq<string>) returns (rootPaths: seq<string>)
    ensures rootPaths == RootPaths(paths)
  {
    rootPaths := [];
    for i := 0 to |paths|
      invariant rootPaths == RootPaths(paths[..i])
    {
      assert paths[..i + 1][..i] == paths[..i];
      if paths[i] == "/" {
        rootPaths := rootPaths + [paths[i]];
      }
    }
    assert paths[..|paths|] == paths;
  }

  lemma IsRound(f: Forest, paths: seq<string>, built: Forest, f': Forest, threshold: nat)
    requires Usable(paths) && built == InsertAll(f, Inserted(paths)) && AggregatesAll(built, f', threshold)
    ensures Round(f, paths, f', threshold)
  {
  }

  /** The occurrences of the root path. */
  function RootPaths(paths: seq<string>): seq<string> {
    if paths == [] then []
    else RootPaths(paths[..|paths| - 1]) + if paths[|paths| - 1] == "/" then ["/"] else []
  }

  lemma BuildStep(f: Forest, sorted: seq<string>, i: nat)
    requires i < |sorted| && (sorted[i] == "/" || Tokenize(sorted[i]) != [])
    requires Usable(sorted[..i]) && NoneEmpty(TokensOf(sorted[..i]))
    ensures Usable(sorted[..i + 1]) && NoneEmpty(TokensOf(sorted[..i + 1]))
    ensures sorted[i] == "/" ==> TokensOf(sorted[..i + 1]) == TokensOf(sorted[..i])
    ensures sorted[i] != "/" ==> Tokenize(sorted[i]) != []
    ensures sorted[i] != "/" ==>
      InsertAll(f, TokensOf(sorted[..i + 1])) == VisitRoot(InsertAll(f, TokensOf(sorted[..i])), Tokenize(sorted[i]))
  {
    assert sorted[..i + 1] == sorted[..i] + [sorted[i]];
    TokensOfAppend(sorted[..i], [sorted[i]]);
    if sorted[i] != "/" {
      var ps, p := TokensOf(sorted[..i]), Tokenize(sorted[i]);
      assert TokensOf(sorted[..i + 1]) == ps + [p];
      assert (ps + [p])[..|ps|] == ps;
    }
  }
}
