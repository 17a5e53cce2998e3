/** The file path trie on values, and the declarative cut it computes.
    SysNode.dfy proves that the in-place tree of the program refines these definitions. */
module SysTrie {
  import opened Paths

  /** A directory is made of a node with more children than this. */
  const THRESHOLD := 3

  datatype Trie = Trie(path: string, isDir: bool, kids: seq<Trie>)

  // ================================================================ the trie operations

  function Find(kids: seq<Trie>, s: string): (i: nat)
    ensures i <= |kids|
    ensures i < |kids| ==> ChildMatches(kids[i].path, s)
    ensures forall k :: 0 <= k < i ==> !ChildMatches(kids[k].path, s)
  {
    if kids == [] || ChildMatches(kids[0].path, s) then 0 else 1 + Find(kids[1..], s)
  }

  function InsertBelow(kids: seq<Trie>, p: Path): seq<Trie>
    decreases |p|
  {
    if p == [] then kids
    else
      var i := Find(kids, p[0]);
      if i == |kids| then kids + [Trie(p[0], false, InsertBelow([], p[1..]))]
      else kids[i := Trie(kids[i].path, kids[i].isDir, InsertBelow(kids[i].kids, p[1..]))]
  }

  /** Children first; a node with too many children becomes a childless directory. */
  function Aggregate(t: Trie): Trie
    decreases t, 1
  {
    if |t.kids| > THRESHOLD then Trie(t.path, true, []) else Trie(t.path, t.isDir, AggregateAll(t.kids))
  }

  function AggregateAll(kids: seq<Trie>): (r: seq<Trie>)
    ensures |r| == |kids|
    decreases kids, 0
  {
    if kids == [] then [] else [Aggregate(kids[0])] + AggregateAll(kids[1..])
  }

  /** A printed leaf: the path from the root, and whether it is a directory. */
  datatype Out = Out(path: Path, dir: bool)

  /** o is a leaf of the subtree whose root has the path `pre`. */
  ghost predicate LeafAt(t: Trie, pre: Path, o: Out)
    decreases t
  {
    if t.kids == [] then o == Out(pre, t.isDir)
    else exists i :: 0 <= i < |t.kids| && LeafAt(t.kids[i], pre + [t.kids[i].path], o)
  }

  // ================================================================ the declarative cut

  /** The distinct segments that follow the prefix in some path of the set. */
  function ChildSegs(f: set<Path>, q: Path): set<string> {
    set p | p in f && q < p :: p[|q|]
  }

  predicate Full(f: set<Path>, q: Path) {
    |ChildSegs(f, q)| > THRESHOLD
  }

  /** k is the shallowest depth, from n on, at which a prefix of p has too many child segments. */
  ghost predicate FirstFull(f: set<Path>, p: Path, n: nat, k: nat) {
    n <= k <= |p| && Full(f, p[..k]) && forall j :: n <= j < k ==> !Full(f, p[..j])
  }

  ghost predicate NoneFull(f: set<Path>, p: Path, n: nat) {
    forall k :: n <= k <= |p| ==> !Full(f, p[..k])
  }

  /** What becomes of path p when prefixes shorter than n are not looked at. */
  ghost predicate CutFrom(f: set<Path>, p: Path, n: nat, o: Out) {
    || (exists k: nat :: FirstFull(f, p, n, k) && o == Out(p[..k], true))
    || (NoneFull(f, p, n) && ChildSegs(f, p) == {} && o == Out(p, false))
  }

  /** The shallowest prefix with more than three child segments, as a directory; or the path itself
      when there is none and no other path continues it. */
  ghost predicate IsCut(f: set<Path>, p: Path, o: Out) {
    CutFrom(f, p, 1, o)
  }

  // ================================================================ trie and set

  ghost function Heads(s: set<Path>): set<string> {
    set p | p in s && p != [] :: p[0]
  }

  ghost function Under(s: set<Path>, x: string): set<Path> {
    set p | p in s && p != [] && p[0] == x :: p[1..]
  }

  ghost function PathsOf(kids: seq<Trie>): set<string> {
    set k | k in kids :: k.path
  }

  ghost predicate DistinctPaths(kids: seq<Trie>) {
    forall i, j :: 0 <= i < j < |kids| ==> kids[i].path != kids[j].path
  }

  /** The children hold exactly the remainders in s. */
  ghost predicate Holds(kids: seq<Trie>, s: set<Path>)
    decreases kids
  {
    && DistinctPaths(kids)
    && PathsOf(kids) == Heads(s)
    && forall i :: 0 <= i < |kids| ==> !kids[i].isDir && Holds(kids[i].kids, Under(s, kids[i].path))
  }

  ghost predicate PlainPath(p: Path) {
    forall i :: 0 <= i < |p| ==> !IsWild(p[i])
  }

  ghost predicate AllPlain(s: set<Path>) {
    forall p :: p in s ==> PlainPath(p)
  }

  lemma UnderAdd(s: set<Path>, r: Path, x: string)
    ensures Under(s + {r}, x) == if r != [] && r[0] == x then Under(s, x) + {r[1..]} else Under(s, x)
    ensures Heads(s + {r}) == if r != [] then Heads(s) + {r[0]} else Heads(s)
  {
    assert r in s + {r};
    forall p | p in s ensures p in s + {r} {}
  }

  lemma UnderPlain(s: set<Path>, x: string)
    requires AllPlain(s)
    ensures AllPlain(Under(s, x))
  {
    forall p | p in Under(s, x) ensures PlainPath(p) {
      var q :| q in s && q != [] && q[0] == x && q[1..] == p;
      assert forall i :: 0 <= i < |p| ==> p[i] == q[i + 1];
    }
  }

  lemma PlainKids(kids: seq<Trie>, s: set<Path>)
    requires Holds(kids, s) && AllPlain(s)
    ensures forall i :: 0 <= i < |kids| ==> !IsWild(kids[i].path)
  {
    forall i | 0 <= i < |kids| ensures !IsWild(kids[i].path) {
      assert kids[i].path in PathsOf(kids);
      var p :| p in s && p != [] && p[0] == kids[i].path;
      assert !IsWild(p[0]);
    }
  }

  lemma HoldsNothing()
    ensures Holds([], {[]}) && Holds([], {})
  {
  }

  /** At every level the search finds the child with that very text, or none and there is none. */
  ghost predicate Lands(kids: seq<Trie>, r: Path)
    decreases |r|
  {
    r != [] ==>
      var i := Find(kids, r[0]);
      if i == |kids| then r[0] !in PathsOf(kids) else kids[i].path == r[0] && Lands(kids[i].kids, r[1..])
  }

  /** Some remainder begins with r, so the tree has all its nodes already. */
  ghost predicate Begins(s: set<Path>, r: Path) {
    exists q :: q in s && r <= q
  }

  /** Inserting r puts it where it belongs; if all its nodes are there already, it changes nothing. */
  ghost predicate Placed(kids: seq<Trie>, s: set<Path>, r: Path) {
    if Begins(s, r) then InsertBelow(kids, r) == kids else Lands(kids, r)
  }

  lemma BeginsUnder(s: set<Path>, r: Path)
    requires r != []
    ensures Begins(s, r) <==> Begins(Under(s, r[0]), r[1..])
    ensures Begins(s, r) ==> r[0] in Heads(s)
  {
    if Begins(s, r) {
      var q :| q in s && r <= q;
      assert q[1..] in Under(s, r[0]) && r[1..] <= q[1..];
    }
    if Begins(Under(s, r[0]), r[1..]) {
      var u :| u in Under(s, r[0]) && r[1..] <= u;
      var q :| q in s && q != [] && q[0] == r[0] && q[1..] == u;
      assert r == [r[0]] + r[1..] && q == [q[0]] + q[1..];
      assert r <= q;
    }
  }

  /** Inserting a remainder where it belongs adds it to the set held. */
  lemma {:induction false} InsertHolds(kids: seq<Trie>, s: set<Path>, r: Path)
    requires Holds(kids, s) && Lands(kids, r)
    ensures Holds(InsertBelow(kids, r), s + {r})
    decreases |r|
  {
    if r == [] {
      assert Heads(s + {r}) == Heads(s);
      forall i | 0 <= i < |kids| ensures Under(s + {r}, kids[i].path) == Under(s, kids[i].path) {
        UnderAdd(s, r, kids[i].path);
      }
    } else {
      var x, i := r[0], Find(kids, r[0]);
      UnderAdd(s, r, x);
      if i == |kids| {
        assert Under(s, x) == {};
        HoldsNothing();
        LandsBelowNothing(r[1..]);
        InsertHolds([], {}, r[1..]);
        assert {} + {r[1..]} == {r[1..]};
        AddKid(kids, s, r);
      } else {
        InsertHolds(kids[i].kids, Under(s, x), r[1..]);
        ChangeKid(kids, s, r, i);
      }
    }
  }

  lemma LandsBelowNothing(r: Path)
    ensures Lands([], r)
  {
  }

  /** Segments that are not spelled like a wildcard always land. */
  lemma {:induction false} PlainLands(kids: seq<Trie>, s: set<Path>, r: Path)
    requires Holds(kids, s) && AllPlain(s) && PlainPath(r)
    ensures Lands(kids, r)
    decreases |r|
  {
    if r != [] {
      var i := Find(kids, r[0]);
      PlainKids(kids, s);
      if i < |kids| {
        UnderPlain(s, r[0]);
        PlainLands(kids[i].kids, Under(s, r[0]), r[1..]);
      }
    }
  }

  /** A tree that holds s also holds s and r only if some remainder begins with r. */
  lemma {:induction false} HoldsBoth(kids: seq<Trie>, s: set<Path>, r: Path)
    requires Holds(kids, s) && Holds(kids, s + {r}) && s != {}
    ensures Begins(s, r)
    decreases |r|
  {
    if r == [] {
      var q :| q in s;
      assert r <= q;
    } else {
      var x := r[0];
      UnderAdd(s, r, x);
      assert x in PathsOf(kids);
      var k :| k in kids && k.path == x;
      var i :| 0 <= i < |kids| && kids[i] == k;
      var q :| q in s && q != [] && q[0] == x;
      assert q[1..] in Under(s, x);
      HoldsBoth(kids[i].kids, Under(s, x), r[1..]);
      BeginsUnder(s, r);
    }
  }

  /** Two trees that hold the same set have as many children. */
  lemma SameCount(a: seq<Trie>, b: seq<Trie>, s: set<Path>)
    requires Holds(a, s) && Holds(b, s)
    ensures |a| == |b|
  {
    CountPaths(a);
    CountPaths(b);
  }

  /** An insertion that leaves the set held leaves the tree. */
  lemma {:induction false} NothingInserted(kids: seq<Trie>, s: set<Path>, r: Path)
    requires Holds(kids, s) && Holds(InsertBelow(kids, r), s)
    ensures InsertBelow(kids, r) == kids
    decreases |r|
  {
    if r != [] {
      SameCount(kids, InsertBelow(kids, r), s);
      var i := Find(kids, r[0]);
      assert i < |kids|;
      var kid := InsertBelow(kids, r)[i];
      assert kid.path == kids[i].path && kid.kids == InsertBelow(kids[i].kids, r[1..]);
      NothingInserted(kids[i].kids, Under(s, kids[i].path), r[1..]);
    }
  }

  lemma {:induction false} AlreadyHeld(kids: seq<Trie>, s: set<Path>, r: Path)
    requires Holds(kids, s) && Begins(s, r)
    ensures Holds(kids, s + {r})
    decreases |r|
  {
    forall i | 0 <= i < |kids| ensures !kids[i].isDir && Holds(kids[i].kids, Under(s + {r}, kids[i].path)) {
      UnderAdd(s, r, kids[i].path);
      if r != [] && r[0] == kids[i].path {
        BeginsUnder(s, r);
        AlreadyHeld(kids[i].kids, Under(s, r[0]), r[1..]);
      }
    }
    UnderAdd(s, r, "");
    if r != [] { BeginsUnder(s, r); }
    assert Heads(s + {r}) == Heads(s);
  }

  /** The exact step: a tree that holds a set holds the set with a further remainder after its insertion
      exactly when the remainder is placed. A literal wildcard that swallows a sibling, or does not find
      itself, breaks this, and nothing else does. */
  lemma {:induction false} InsertExact(kids: seq<Trie>, s: set<Path>, r: Path)
    requires Holds(kids, s)
    ensures Holds(InsertBelow(kids, r), s + {r}) <==> Placed(kids, s, r)
    decreases |r|
  {
    if Placed(kids, s, r) {
      if Begins(s, r) { AlreadyHeld(kids, s, r); } else { InsertHolds(kids, s, r); }
    }
    if Holds(InsertBelow(kids, r), s + {r}) {
      HeldIsPlaced(kids, s, r);
    }
  }

  lemma {:induction false} HeldIsPlaced(kids: seq<Trie>, s: set<Path>, r: Path)
    requires Holds(kids, s) && Holds(InsertBelow(kids, r), s + {r})
    ensures Placed(kids, s, r)
    decreases |r|
  {
    if r != [] {
      var kids', x, i := InsertBelow(kids, r), r[0], Find(kids, r[0]);
      UnderAdd(s, r, x);
      BeginsUnder(s, r);
      if i == |kids| {
        AppendedIsNew(kids, s, r);
      } else if kids[i].path == x {
        HeldIsPlaced(kids[i].kids, Under(s, x), r[1..]);
      } else {
        OtherChild(kids, s, r, i);
      }
    }
  }

  lemma AppendedIsNew(kids: seq<Trie>, s: set<Path>, r: Path)
    requires Holds(kids, s) && r != [] && Find(kids, r[0]) == |kids| && DistinctPaths(InsertBelow(kids, r))
    ensures r[0] !in PathsOf(kids) && !Begins(s, r)
  {
    BeginsUnder(s, r);
    var kids' := InsertBelow(kids, r);
    forall k | k in kids ensures k.path != r[0] {
      var j :| 0 <= j < |kids| && kids[j] == k;
      assert kids'[j] == k && kids'[|kids|].path == r[0];
    }
  }

  /** The search found a child of another text. */
  lemma OtherChild(kids: seq<Trie>, s: set<Path>, r: Path, i: nat)
    requires Holds(kids, s) && r != [] && Find(kids, r[0]) == i < |kids| && kids[i].path != r[0]
    requires Holds(InsertBelow(kids, r), s + {r})
    ensures Begins(s, r) && InsertBelow(kids, r) == kids
  {
    ChildUnchanged(kids, s, r, i);
    UnderAdd(s, r, r[0]);
    assert r[0] in PathsOf(kids);
    assert s != {};
    hide Holds, InsertBelow, Begins;
    HoldsBoth(kids, s, r);
  }

  lemma ChildUnchanged(kids: seq<Trie>, s: set<Path>, r: Path, i: nat)
    requires Holds(kids, s) && r != [] && Find(kids, r[0]) == i < |kids| && kids[i].path != r[0]
    requires Holds(InsertBelow(kids, r), s + {r})
    ensures InsertBelow(kids, r) == kids
  {
    var kid := InsertBelow(kids, r)[i];
    assert kid.path == kids[i].path && kid.kids == InsertBelow(kids[i].kids, r[1..]);
    UnderAdd(s, r, kid.path);
    assert Holds(kid.kids, Under(s, kid.path));
    NothingInserted(kids[i].kids, Under(s, kids[i].path), r[1..]);
  }

  lemma AddKid(kids: seq<Trie>, s: set<Path>, r: Path)
    requires Holds(kids, s) && r != [] && r[0] !in PathsOf(kids)
    requires Holds(InsertBelow([], r[1..]), {r[1..]})
    ensures Holds(kids + [Trie(r[0], false, InsertBelow([], r[1..]))], s + {r})
  {
    var k := Trie(r[0], false, InsertBelow([], r[1..]));
    var kids' := kids + [k];
    UnderAdd(s, r, r[0]);
    assert Under(s, r[0]) == {};
    assert PathsOf(kids') == PathsOf(kids) + {r[0]};
    forall i | 0 <= i < |kids'|
      ensures !kids'[i].isDir && Holds(kids'[i].kids, Under(s + {r}, kids'[i].path))
    {
      if i < |kids| {
        assert kids'[i] == kids[i] && kids[i].path in PathsOf(kids);
        UnderAdd(s, r, kids[i].path);
      } else {
        assert {} + {r[1..]} == {r[1..]};
      }
    }
    forall i, j | 0 <= i < j < |kids'| ensures kids'[i].path != kids'[j].path {
      assert kids'[i] == kids[i] && kids[i].path in PathsOf(kids);
    }
  }

  lemma ChangeKid(kids: seq<Trie>, s: set<Path>, r: Path, i: nat)
    requires Holds(kids, s) && r != [] && i < |kids| && kids[i].path == r[0]
    requires Holds(InsertBelow(kids[i].kids, r[1..]), Under(s, r[0]) + {r[1..]})
    ensures Holds(kids[i := Trie(kids[i].path, kids[i].isDir, InsertBelow(kids[i].kids, r[1..]))], s + {r})
  {
    var kids' := kids[i := Trie(kids[i].path, kids[i].isDir, InsertBelow(kids[i].kids, r[1..]))];
    UnderAdd(s, r, r[0]);
    SamePaths(kids, kids');
    assert kids[i].path in PathsOf(kids);
    forall j | 0 <= j < |kids'|
      ensures !kids'[j].isDir && Holds(kids'[j].kids, Under(s + {r}, kids'[j].path))
    {
      if j != i {
        assert kids'[j] == kids[j];
        UnderAdd(s, r, kids[j].path);
        assert i < j || j < i;
      }
    }
  }

  lemma SamePaths(a: seq<Trie>, b: seq<Trie>)
    requires |a| == |b| && forall i :: 0 <= i < |a| ==> a[i].path == b[i].path
    ensures PathsOf(a) == PathsOf(b) && (DistinctPaths(a) <==> DistinctPaths(b))
  {
    forall x ensures x in PathsOf(a) <==> x in PathsOf(b) {
      if x in PathsOf(a) {
        var i :| 0 <= i < |a| && a[i].path == x;
        assert b[i] in b;
      }
      if x in PathsOf(b) {
        var i :| 0 <= i < |b| && b[i].path == x;
        assert a[i] in a;
      }
    }
  }

  // ================================================================ the trie computes the cut

  /** The remainders, after the prefix, of the paths that have it. */
  ghost function Resid(f: set<Path>, pre: Path): set<Path> {
    set p | p in f && pre <= p :: p[|pre|..]
  }

  lemma ResidUnder(f: set<Path>, pre: Path, x: string)
    ensures Under(Resid(f, pre), x) == Resid(f, pre + [x])
  {
    forall r ensures r in Under(Resid(f, pre), x) <==> r in Resid(f, pre + [x]) {
      if r in Under(Resid(f, pre), x) {
        var q :| q in Resid(f, pre) && q != [] && q[0] == x && q[1..] == r;
        var p :| p in f && pre <= p && p[|pre|..] == q;
        assert pre + [x] <= p && p[|pre| + 1..] == r;
      }
      if r in Resid(f, pre + [x]) {
        var p :| p in f && pre + [x] <= p && p[|pre| + 1..] == r;
        var q := p[|pre|..];
        assert pre <= p && q in Resid(f, pre) && q[0] == x && q[1..] == r;
      }
    }
  }

  lemma HeadsAreChildSegs(f: set<Path>, pre: Path)
    ensures Heads(Resid(f, pre)) == ChildSegs(f, pre)
  {
    forall x ensures x in Heads(Resid(f, pre)) <==> x in ChildSegs(f, pre) {
      if x in Heads(Resid(f, pre)) {
        var q :| q in Resid(f, pre) && q != [] && q[0] == x;
        var p :| p in f && pre <= p && p[|pre|..] == q;
        assert pre < p && p[|pre|] == x;
      }
      if x in ChildSegs(f, pre) {
        var p :| p in f && pre < p && p[|pre|] == x;
        assert p[|pre|..] in Resid(f, pre) && p[|pre|..][0] == x;
      }
    }
  }

  lemma {:induction false} CountPaths(kids: seq<Trie>)
    requires DistinctPaths(kids)
    ensures |PathsOf(kids)| == |kids|
    decreases |kids|
  {
    if kids != [] {
      var last := |kids| - 1;
      var init := kids[..last];
      CountPaths(init);
      assert kids == init + [kids[last]];
      assert PathsOf(kids) == PathsOf(init) + {kids[last].path};
      assert kids[last].path !in PathsOf(init);
    } else {
      assert PathsOf(kids) == {};
    }
  }

  /** A node's children are the child segments of its path in the set. */
  lemma NodeCounts(kids: seq<Trie>, f: set<Path>, pre: Path)
    requires Holds(kids, Resid(f, pre))
    ensures PathsOf(kids) == ChildSegs(f, pre) && |kids| == |ChildSegs(f, pre)|
    ensures kids == [] <==> ChildSegs(f, pre) == {}
  {
    HeadsAreChildSegs(f, pre);
    CountPaths(kids);
    assert |ChildSegs(f, pre)| == 0 <==> ChildSegs(f, pre) == {};
  }

  lemma {:induction false} AggregateAllAt(kids: seq<Trie>, i: nat)
    requires i < |kids|
    ensures AggregateAll(kids)[i] == Aggregate(kids[i])
  {
    if i > 0 { AggregateAllAt(kids[1..], i - 1); }
  }

  /** Looking one level deeper changes nothing when the present prefix is not full. */
  lemma CutStep(f: set<Path>, p: Path, n: nat, o: Out)
    requires n < |p| && !Full(f, p[..n])
    ensures CutFrom(f, p, n, o) <==> CutFrom(f, p, n + 1, o)
  {
    hide Full, ChildSegs;
    forall k ensures FirstFull(f, p, n, k) <==> FirstFull(f, p, n + 1, k) {}
    assert NoneFull(f, p, n) <==> NoneFull(f, p, n + 1);
  }

  lemma CutAtFull(f: set<Path>, p: Path, n: nat, o: Out)
    requires n <= |p| && Full(f, p[..n])
    ensures CutFrom(f, p, n, o) <==> o == Out(p[..n], true)
  {
    assert FirstFull(f, p, n, n);
    forall k | FirstFull(f, p, n, k) ensures k == n {}
  }

  lemma CutAtEnd(f: set<Path>, p: Path, o: Out)
    requires !Full(f, p)
    ensures CutFrom(f, p, |p|, o) <==> ChildSegs(f, p) == {} && o == Out(p, false)
  {
    assert p[..|p|] == p;
    assert NoneFull(f, p, |p|);
  }

  /** Some path of the set has the prefix and is cut to o. */
  ghost predicate CutBelow(f: set<Path>, pre: Path, o: Out) {
    exists p :: p in f && pre <= p && CutFrom(f, p, |pre|, o)
  }

  /** The leaves of the aggregated subtree at `pre` are the cuts of the paths that have that prefix. */
  lemma {:induction false} LeavesAreCuts(t: Trie, f: set<Path>, pre: Path, o: Out)
    requires !t.isDir && Holds(t.kids, Resid(f, pre)) && Resid(f, pre) != {}
    ensures LeafAt(Aggregate(t), pre, o) <==> CutBelow(f, pre, o)
    decreases t
  {
    NodeCounts(t.kids, f, pre);
    if |t.kids| > THRESHOLD {
      FullNode(f, pre, o);
    } else if t.kids == [] {
      EndNode(f, pre, o);
    } else {
      forall i | 0 <= i < |t.kids|
        ensures LeafAt(Aggregate(t.kids[i]), pre + [t.kids[i].path], o) <==>
                CutBelow(f, pre + [t.kids[i].path], o)
      {
        ResidUnder(f, pre, t.kids[i].path);
        NonEmptyBelow(t.kids, f, pre, i);
        LeavesAreCuts(t.kids[i], f, pre + [t.kids[i].path], o);
      }
      InnerNode(t, f, pre, o);
    }
  }

  lemma FullNode(f: set<Path>, pre: Path, o: Out)
    requires Full(f, pre) && Resid(f, pre) != {}
    ensures CutBelow(f, pre, o) <==> o == Out(pre, true)
  {
    var r :| r in Resid(f, pre);
    var q :| q in f && pre <= q && q[|pre|..] == r;
    forall p | p in f && pre <= p ensures CutFrom(f, p, |pre|, o) <==> o == Out(pre, true) {
      assert p[..|pre|] == pre;
      CutAtFull(f, p, |pre|, o);
    }
  }

  lemma Continues(f: set<Path>, p: Path, q: Path)
    requires q in f && p < q
    ensures ChildSegs(f, p) != {}
  {
    assert q[|p|] in ChildSegs(f, p);
  }

  lemma EndNode(f: set<Path>, pre: Path, o: Out)
    requires ChildSegs(f, pre) == {} && Resid(f, pre) != {}
    ensures CutBelow(f, pre, o) <==> o == Out(pre, false)
  {
    var r :| r in Resid(f, pre);
    var q :| q in f && pre <= q && q[|pre|..] == r;
    forall p | p in f && pre <= p
      ensures p == pre && (CutFrom(f, p, |pre|, o) <==> o == Out(pre, false))
    {
      if pre < p { Continues(f, pre, p); }
      CutAtEnd(f, pre, o);
    }
  }

  lemma NonEmptyBelow(kids: seq<Trie>, f: set<Path>, pre: Path, i: nat)
    requires Holds(kids, Resid(f, pre)) && i < |kids|
    ensures Resid(f, pre + [kids[i].path]) != {}
  {
    var x := kids[i].path;
    assert x in PathsOf(kids);
    var q :| q in Resid(f, pre) && q != [] && q[0] == x;
    assert q[1..] in Under(Resid(f, pre), x);
    ResidUnder(f, pre, x);
  }

  lemma InnerNode(t: Trie, f: set<Path>, pre: Path, o: Out)
    requires PathsOf(t.kids) == ChildSegs(f, pre) && 0 < |t.kids| <= THRESHOLD && !Full(f, pre)
    requires forall i :: 0 <= i < |t.kids| ==>
      (LeafAt(Aggregate(t.kids[i]), pre + [t.kids[i].path], o) <==> CutBelow(f, pre + [t.kids[i].path], o))
    ensures LeafAt(Aggregate(t), pre, o) <==> CutBelow(f, pre, o)
  {
    var kids' := Aggregate(t).kids;
    forall i | 0 <= i < |kids'|
      ensures LeafAt(kids'[i], pre + [kids'[i].path], o) <==> CutBelow(f, pre + [t.kids[i].path], o)
    {
      AggregateAllAt(t.kids, i);
    }
    hide CutFrom, Full, LeafAt, ChildSegs;
    LeafOfKids(t, pre, o);
    if CutBelow(f, pre, o) {
      var p :| p in f && pre <= p && CutFrom(f, p, |pre|, o);
      var i := InnerCut(t.kids, f, pre, p, o);
    }
    if i :| 0 <= i < |kids'| && LeafAt(kids'[i], pre + [kids'[i].path], o) {
      DeeperCut(f, pre, t.kids[i].path, o);
    }
  }

  lemma LeafOfKids(t: Trie, pre: Path, o: Out)
    requires 0 < |t.kids| <= THRESHOLD
    ensures LeafAt(Aggregate(t), pre, o) <==>
      exists i :: 0 <= i < |Aggregate(t).kids| && LeafAt(Aggregate(t).kids[i], pre + [Aggregate(t).kids[i].path], o)
  {
  }

  lemma DeeperCut(f: set<Path>, pre: Path, x: string, o: Out)
    requires CutBelow(f, pre + [x], o) && !Full(f, pre)
    ensures CutBelow(f, pre, o)
  {
    var p :| p in f && pre + [x] <= p && CutFrom(f, p, |pre| + 1, o);
    assert p[..|pre|] == pre && pre <= p;
    CutStep(f, p, |pre|, o);
  }

  lemma InnerCut(kids: seq<Trie>, f: set<Path>, pre: Path, p: Path, o: Out) returns (i: nat)
    requires PathsOf(kids) == ChildSegs(f, pre) && kids != [] && !Full(f, pre)
    requires p in f && pre <= p && CutFrom(f, p, |pre|, o)
    ensures i < |kids| && CutBelow(f, pre + [kids[i].path], o)
  {
    assert p[..|pre|] == pre;
    assert kids[0].path in PathsOf(kids);
    if p == pre { CutAtEnd(f, p, o); }
    var x := p[|pre|];
    assert x in ChildSegs(f, pre);
    var k :| k in kids && k.path == x;
    i :| 0 <= i < |kids| && kids[i] == k;
    CutStep(f, p, |pre|, o);
    assert pre + [x] <= p;
  }

  // ================================================================ consequences of the cut

  /** The cut of a path covers it: it is the path itself, or a directory at or above it. */
  lemma CutCovers(f: set<Path>, p: Path, n: nat, o: Out)
    requires CutFrom(f, p, n, o)
    ensures if o.dir then o.path <= p && |o.path| >= n else o.path == p
  {
  }

  /** A path is cut unless another path continues it and no prefix is full. */
  lemma CutExists(f: set<Path>, p: Path) returns (o: Out)
    requires p != [] && (ChildSegs(f, p) == {} || !NoneFull(f, p, 1))
    ensures IsCut(f, p, o)
  {
    if NoneFull(f, p, 1) {
      o := Out(p, false);
    } else {
      var k :| 1 <= k <= |p| && Full(f, p[..k]);
      k := LeastFull(f, p, k);
      o := Out(p[..k], true);
    }
  }

  lemma {:induction false} LeastFull(f: set<Path>, p: Path, k0: nat) returns (k: nat)
    requires 1 <= k0 <= |p| && Full(f, p[..k0])
    ensures FirstFull(f, p, 1, k)
    decreases k0
  {
    if j :| 1 <= j < k0 && Full(f, p[..j]) {
      k := LeastFull(f, p, j);
    } else {
      k := k0;
    }
  }

  /** The cut is a function of the path. */
  lemma CutUnique(f: set<Path>, p: Path, a: Out, b: Out)
    requires IsCut(f, p, a) && IsCut(f, p, b)
    ensures a == b
  {
    if k: nat :| FirstFull(f, p, 1, k) && a == Out(p[..k], true) {
      if j: nat :| FirstFull(f, p, 1, j) && b == Out(p[..j], true) {
        assert j == k;
      }
    }
  }

  /** Two cuts of one set are never nested. */
  lemma CutsAreSeparate(f: set<Path>, p: Path, q: Path, a: Out, b: Out)
    requires p in f && q in f && IsCut(f, p, a) && IsCut(f, q, b) && a.path <= b.path
    ensures a == b
  {
    CutCovers(f, p, 1, a);
    CutCovers(f, q, 1, b);
    assert a.path <= q && a.path <= p;
    var n := |a.path|;
    if a.dir {
      assert Full(f, p[..n]) && p[..n] == q[..n];
      forall j | 1 <= j < n ensures !Full(f, q[..j]) { assert q[..j] == p[..j]; }
      assert FirstFull(f, q, 1, n);
      CutUnique(f, q, b, Out(q[..n], true));
    } else {
      if p < q { Continues(f, p, q); }
      assert p == q;
      CutUnique(f, p, a, b);
    }
  }
}
