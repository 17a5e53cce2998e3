/** Aggregation of file paths on values: one trie for each first segment, all aggregated, all leaves
    printed. The result is the declarative cut of the set of inputs. */
module SysForest {
  import opened Paths
  import opened SysTrie

  type Forest = map<string, Trie>

  const TMP: string := "/tmp"

  // ================================================================ building and aggregating

  /** Everything below /tmp stands for /tmp itself. */
  function Mapped(p: Path): Path {
    if p != [] && p[0] == TMP then [TMP] else p
  }

  function NewRoot(r: string): Trie {
    Trie(r, r == TMP, [])
  }

  function InsertRoot(f: Forest, p: Path): Forest
    requires p != []
  {
    var t := if p[0] in f then f[p[0]] else NewRoot(p[0]);
    f[p[0] := Trie(t.path, t.isDir, InsertBelow(t.kids, Mapped(p)[1..]))]
  }

  /** The paths in order; "/" and texts without a token are skipped. */
  function BuildForest(paths: seq<string>): Forest
    decreases |paths|
  {
    if paths == [] then map[]
    else
      var f, p := BuildForest(paths[..|paths| - 1]), Tokenize(paths[|paths| - 1]);
      if p == [] then f else InsertRoot(f, p)
  }

  function AggregateForest(f: Forest): Forest {
    map r | r in f :: Aggregate(f[r])
  }

  // ================================================================ what it computes

  /** The tokenized inputs. */
  ghost function TokenSet(paths: seq<string>): set<Path> {
    set s | s in paths && Tokenize(s) != [] :: Tokenize(s)
  }

  /** What becomes of one input: below /tmp the directory /tmp, elsewhere the cut. */
  ghost predicate CutOf(f: set<Path>, p: Path, o: Out)
    requires p != []
  {
    if p[0] == TMP then o == Out([TMP], true) else IsCut(f, p, o)
  }

  /** o is printed for the inputs f. */
  ghost predicate Aggregated(f: set<Path>, o: Out) {
    exists p :: p in f && p != [] && CutOf(f, p, o)
  }

  /** No segment but the first is literally a wildcard; the first is looked up as it is. */
  ghost predicate AllPlainBelow(f: set<Path>) {
    forall p :: p in f && p != [] ==> PlainPath(p[1..])
  }

  ghost function MappedSet(f: set<Path>): set<Path> {
    set p | p in f && p != [] :: Mapped(p)
  }

  /** The roots hold exactly the given paths. */
  ghost predicate HoldsForest(f: Forest, s: set<Path>) {
    && f.Keys == Heads(s)
    && forall r :: r in f ==> f[r].path == r && (f[r].isDir <==> r == TMP) && Holds(f[r].kids, Under(s, r))
  }

  ghost predicate ForestLeaf(f: Forest, o: Out) {
    exists r :: r in f && LeafAt(f[r], [r], o)
  }

  lemma PlainUnder(s: set<Path>, r: string)
    requires AllPlainBelow(s)
    ensures AllPlain(Under(s, r))
  {
    forall q | q in Under(s, r) ensures PlainPath(q) {
      var p :| p in s && p != [] && p[0] == r && p[1..] == q;
    }
  }

  lemma NoPathsUnder(s: set<Path>, r: string)
    requires r !in Heads(s)
    ensures Under(s, r) == {}
  {
    forall p | p in s && p != [] ensures p[0] != r {
      assert p[0] in Heads(s);
    }
  }

  /** The children below the first segment of a path, present or new. */
  function KidsFor(f: Forest, p: Path): seq<Trie>
    requires p != []
  {
    if p[0] in f then f[p[0]].kids else []
  }

  /** The rest of a path is placed below its first segment. */
  ghost predicate PlacedInRoot(f: Forest, s: set<Path>, p: Path)
    requires p != []
  {
    Placed(KidsFor(f, p), Under(s, p[0]), Mapped(p)[1..])
  }

  lemma ThatRoot(f: Forest, s: set<Path>, p: Path)
    requires p != [] && HoldsForest(f, s)
    ensures var f', s' := InsertRoot(f, p), s + {Mapped(p)};
      && f'.Keys == f.Keys + {p[0]} == Heads(s')
      && f'[p[0]].path == p[0] && (f'[p[0]].isDir <==> p[0] == TMP)
      && (Holds(f'[p[0]].kids, Under(s', p[0])) <==> PlacedInRoot(f, s, p))
  {
    var q := Mapped(p);
    UnderAdd(s, q, p[0]);
    if p[0] !in f {
      NoPathsUnder(s, p[0]);
      HoldsNothing();
    }
    InsertExact(KidsFor(f, p), Under(s, p[0]), q[1..]);
    hide Holds, Placed, Under, Heads, InsertBelow;
  }

  /** Inserting a path below its root keeps the forest exact precisely when the path is placed. */
  lemma InsertRootExact(f: Forest, s: set<Path>, p: Path)
    requires p != [] && HoldsForest(f, s)
    ensures HoldsForest(InsertRoot(f, p), s + {Mapped(p)}) <==> PlacedInRoot(f, s, p)
  {
    hide Holds, PlacedInRoot, Under, Heads, InsertRoot;
    ThatRoot(f, s, p);
    OtherRoots(f, s, p);
    assert p[0] in InsertRoot(f, p);
  }

  lemma OtherRoots(f: Forest, s: set<Path>, p: Path)
    requires p != [] && HoldsForest(f, s)
    ensures forall r :: r in f && r != p[0] ==>
      InsertRoot(f, p)[r] == f[r] && Under(s + {Mapped(p)}, r) == Under(s, r)
  {
    forall r | r in f && r != p[0] ensures Under(s + {Mapped(p)}, r) == Under(s, r) {
      UnderAdd(s, Mapped(p), r);
    }
  }

  lemma MappedPlain(f: set<Path>)
    requires AllPlainBelow(f)
    ensures AllPlainBelow(MappedSet(f))
  {
    forall q | q in MappedSet(f) && q != [] ensures PlainPath(q[1..]) {
      var p :| p in f && p != [] && Mapped(p) == q;
    }
  }

  lemma TokenSetLast(paths: seq<string>)
    requires paths != []
    ensures var p := Tokenize(paths[|paths| - 1]);
      TokenSet(paths) == TokenSet(paths[..|paths| - 1]) + if p == [] then {} else {p}
  {
    var init, last := paths[..|paths| - 1], paths[|paths| - 1];
    assert paths == init + [last];
    forall q ensures q in TokenSet(paths) <==> q in TokenSet(init) || (q != [] && q == Tokenize(last)) {
      if q in TokenSet(paths) {
        var s :| s in paths && Tokenize(s) != [] && Tokenize(s) == q;
        assert s in init || s == last;
      }
      if q in TokenSet(init) {
        var s :| s in init && Tokenize(s) != [] && Tokenize(s) == q;
        assert s in paths;
      }
      assert last in paths;
    }
  }

  /** The forest built from the paths holds exactly their tokens. */
  ghost predicate Built(paths: seq<string>) {
    HoldsForest(BuildForest(paths), MappedSet(TokenSet(paths)))
  }

  /** Every path is placed when its turn comes. */
  ghost predicate AllPlaced(paths: seq<string>)
    decreases |paths|
  {
    paths != [] ==>
      var init, p := paths[..|paths| - 1], Tokenize(paths[|paths| - 1]);
      AllPlaced(init) && (p != [] ==> PlacedInRoot(BuildForest(init), MappedSet(TokenSet(init)), p))
  }

  /** One more path keeps the forest exact precisely when it is placed. */
  lemma BuildStep(paths: seq<string>)
    requires paths != [] && Built(paths[..|paths| - 1])
    ensures var init, p := paths[..|paths| - 1], Tokenize(paths[|paths| - 1]);
      Built(paths) <==> (p != [] ==> PlacedInRoot(BuildForest(init), MappedSet(TokenSet(init)), p))
  {
    var init, p := paths[..|paths| - 1], Tokenize(paths[|paths| - 1]);
    var s, f := TokenSet(init), TokenSet(paths);
    TokenSetLast(paths);
    if p == [] {
      assert s == f;
    } else {
      InsertRootExact(BuildForest(init), MappedSet(s), p);
      assert MappedSet(f) == MappedSet(s) + {Mapped(p)} by {
        assert p in f;
        forall q | q in s ensures q in f {}
      }
    }
  }

  lemma NothingBuilt()
    ensures Built([])
  {
    assert TokenSet([]) == {};
    assert MappedSet({}) == {};
  }

  lemma {:induction false} PlacedIsBuilt(paths: seq<string>)
    requires AllPlaced(paths)
    ensures Built(paths)
    decreases |paths|
  {
    if paths == [] {
      NothingBuilt();
    } else {
      PlacedIsBuilt(paths[..|paths| - 1]);
      BuildStep(paths);
    }
  }

  /** The forest is right after every path. */
  ghost predicate BuiltThroughout(paths: seq<string>) {
    forall n :: 0 <= n <= |paths| ==> Built(paths[..n])
  }

  lemma BuiltUpToLast(paths: seq<string>)
    requires paths != []
    ensures BuiltThroughout(paths) <==> BuiltThroughout(paths[..|paths| - 1]) && Built(paths)
  {
    hide Built;
    var init := paths[..|paths| - 1];
    assert paths[..|paths|] == paths;
    if BuiltThroughout(paths) {
      forall n | 0 <= n <= |init| ensures Built(init[..n]) { assert init[..n] == paths[..n]; }
    }
    if BuiltThroughout(init) && Built(paths) {
      forall n | 0 <= n <= |paths| ensures Built(paths[..n]) {
        if n < |paths| { assert init[..n] == paths[..n]; }
      }
    }
  }

  lemma BuiltAtEnd(paths: seq<string>)
    ensures BuiltThroughout(paths) ==> Built(paths)
    ensures paths == [] ==> BuiltThroughout(paths)
  {
    hide Built;
    NothingBuilt();
    assert paths[..|paths|] == paths;
  }

  /** The trie goes wrong at the first path that is not placed, and only there. */
  lemma {:induction false} BuiltThroughoutExactly(paths: seq<string>)
    ensures AllPlaced(paths) <==> BuiltThroughout(paths)
    decreases |paths|
  {
    hide Built, BuiltThroughout, PlacedInRoot, BuildForest, TokenSet, Tokenize;
    BuiltAtEnd(paths);
    if paths != [] {
      var init := paths[..|paths| - 1];
      BuiltThroughoutExactly(init);
      BuiltUpToLast(paths);
      BuiltAtEnd(init);
      if Built(init) { BuildStep(paths); }
    }
  }

  /** Without literal wildcards every path is placed. */
  lemma {:induction false} PlainIsPlaced(paths: seq<string>)
    requires AllPlainBelow(TokenSet(paths))
    ensures AllPlaced(paths)
    decreases |paths|
  {
    if paths != [] {
      var init, p := paths[..|paths| - 1], Tokenize(paths[|paths| - 1]);
      TokenSetLast(paths);
      PlainIsPlaced(init);
      PlacedIsBuilt(init);
      if p != [] {
        MappedPlain(TokenSet(init));
        PlainInRoot(BuildForest(init), MappedSet(TokenSet(init)), p);
      }
    }
  }

  lemma PlainInRoot(f: Forest, s: set<Path>, p: Path)
    requires p != [] && PlainPath(p[1..]) && AllPlainBelow(s) && HoldsForest(f, s)
    ensures PlacedInRoot(f, s, p)
  {
    var kids, u, r := KidsFor(f, p), Under(s, p[0]), Mapped(p)[1..];
    if p[0] !in f {
      NoPathsUnder(s, p[0]);
      HoldsNothing();
    }
    PlainUnder(s, p[0]);
    PlainLands(kids, u, r);
    InsertHolds(kids, u, r);
    InsertExact(kids, u, r);
  }

  lemma PlainIsBuilt(paths: seq<string>)
    requires AllPlainBelow(TokenSet(paths))
    ensures Built(paths)
  {
    PlainIsPlaced(paths);
    PlacedIsBuilt(paths);
  }

  // ================================================================ the leaves are the cuts

  lemma SameChildSegs(f: set<Path>, q: Path)
    requires q != [] && q[0] != TMP
    ensures ChildSegs(MappedSet(f), q) == ChildSegs(f, q)
  {
    forall x ensures x in ChildSegs(MappedSet(f), q) <==> x in ChildSegs(f, q) {
      if x in ChildSegs(MappedSet(f), q) {
        var m :| m in MappedSet(f) && q < m && m[|q|] == x;
        var p :| p in f && p != [] && Mapped(p) == m;
        assert m[0] == q[0];
        assert p == m;
      }
      if x in ChildSegs(f, q) {
        var p :| p in f && q < p && p[|q|] == x;
        assert p[0] == q[0];
        assert p in MappedSet(f);
      }
    }
  }

  lemma SameCut(f: set<Path>, p: Path, o: Out)
    requires p != [] && p[0] != TMP
    ensures IsCut(MappedSet(f), p, o) <==> IsCut(f, p, o)
  {
    var ms := MappedSet(f);
    forall k | 1 <= k <= |p| ensures Full(ms, p[..k]) <==> Full(f, p[..k]) {
      SameChildSegs(f, p[..k]);
    }
    SameChildSegs(f, p);
    forall k ensures FirstFull(ms, p, 1, k) <==> FirstFull(f, p, 1, k) {}
    assert NoneFull(ms, p, 1) <==> NoneFull(f, p, 1);
  }

  lemma ResidOfRoot(s: set<Path>, r: string)
    ensures Resid(s, [r]) == Under(s, r)
  {
    assert Resid(s, []) == s by {
      assert forall p: Path :: p[0..] == p;
    }
    ResidUnder(s, [], r);
    assert [] + [r] == [r];
  }

  lemma TmpRoot(f: set<Path>, t: Trie, o: Out)
    requires TMP in Heads(MappedSet(f)) && t.isDir && Holds(t.kids, Under(MappedSet(f), TMP))
    ensures LeafAt(Aggregate(t), [TMP], o) <==> o == Out([TMP], true)
    ensures exists p :: p in f && p != [] && p[0] == TMP
  {
    var s := MappedSet(f);
    var m :| m in s && m != [] && m[0] == TMP;
    var p :| p in f && p != [] && Mapped(p) == m;
    assert p[0] == TMP;
    forall q | q in Under(s, TMP) ensures q == [] {
      var m' :| m' in s && m' != [] && m'[0] == TMP && m'[1..] == q;
    }
    assert Heads(Under(s, TMP)) == {};
    assert forall k :: k in t.kids ==> k.path in PathsOf(t.kids);
  }

  lemma OtherRoot(f: set<Path>, t: Trie, r: string, o: Out)
    requires r in Heads(MappedSet(f)) && r != TMP && !t.isDir && Holds(t.kids, Under(MappedSet(f), r))
    ensures LeafAt(Aggregate(t), [r], o) <==> exists p :: p in f && [r] <= p && IsCut(f, p, o)
  {
    var s := MappedSet(f);
    ResidOfRoot(s, r);
    var m :| m in s && m != [] && m[0] == r;
    assert m[1..] in Under(s, r);
    LeavesAreCuts(t, s, [r], o);
    forall p | [r] <= p ensures IsCut(s, p, o) <==> IsCut(f, p, o) { SameCut(f, p, o); }
    forall p | [r] <= p ensures p in s <==> p in f {
      if p in s { var q :| q in f && q != [] && Mapped(q) == p; }
      if p in f { assert Mapped(p) == p; }
    }
    assert CutBelow(s, [r], o) <==> exists p :: p in s && [r] <= p && IsCut(s, p, o);
  }

  /** Some input with the first segment r becomes o. */
  ghost predicate CutInRoot(f: set<Path>, r: string, o: Out) {
    exists p :: p in f && p != [] && p[0] == r && CutOf(f, p, o)
  }

  lemma RootLeaf(f: set<Path>, b: Forest, r: string, o: Out)
    requires HoldsForest(b, MappedSet(f)) && r in b
    ensures LeafAt(Aggregate(b[r]), [r], o) <==> CutInRoot(f, r, o)
  {
    hide Holds, LeafAt, IsCut, Under, Aggregate, Heads;
    if r == TMP {
      TmpRoot(f, b[r], o);
    } else {
      OtherRoot(f, b[r], r, o);
      assert forall p: Path :: [r] <= p <==> p != [] && p[0] == r;
    }
  }

  lemma HeadsMapped(f: set<Path>, p: Path)
    requires p in f && p != []
    ensures p[0] in Heads(MappedSet(f))
  {
    assert Mapped(p) in MappedSet(f);
    assert Mapped(p)[0] == p[0];
  }

  /** The trie refines its specification: the leaves of the aggregated forest are exactly the cuts of
      the inputs, so they depend only on the set of inputs and not on order or repetition. This holds of
      every forest that is built right: without literal wildcards, and whenever all paths are placed. */
  lemma AggregationIsTheCut(paths: seq<string>, o: Out)
    requires Built(paths)
    ensures ForestLeaf(AggregateForest(BuildForest(paths)), o) <==> Aggregated(TokenSet(paths), o)
  {
    var f, b := TokenSet(paths), BuildForest(paths);
    forall r | r in b ensures LeafAt(AggregateForest(b)[r], [r], o) <==> CutInRoot(f, r, o) {
      RootLeaf(f, b, r, o);
    }
    hide LeafAt, CutOf, BuildForest, TokenSet, Aggregate, Heads;
    if p :| p in f && p != [] && CutOf(f, p, o) {
      HeadsMapped(f, p);
      assert CutInRoot(f, p[0], o);
    }
  }

  // ================================================================ outputs are separate

  /** Outputs are made of tokens, and every one covers some input. */
  lemma OutputShape(paths: seq<string>, o: Out)
    requires Aggregated(TokenSet(paths), o)
    ensures o.path != [] && AllTokens(o.path)
  {
    var p :| p in TokenSet(paths) && p != [] && CutOf(TokenSet(paths), p, o);
    var s :| s in paths && Tokenize(s) == p;
    TokenizeTokens(s);
    if p[0] != TMP { CutCovers(TokenSet(paths), p, 1, o); }
  }

  /** Two outputs are never nested: at most one output covers a path. */
  lemma OutputsAreSeparate(f: set<Path>, a: Out, b: Out)
    requires Aggregated(f, a) && Aggregated(f, b) && a.path <= b.path
    ensures a == b
  {
    var p :| p in f && p != [] && CutOf(f, p, a);
    var q :| q in f && q != [] && CutOf(f, q, b);
    if p[0] != TMP { CutCovers(f, p, 1, a); }
    if q[0] != TMP { CutCovers(f, q, 1, b); }
    assert p[0] == a.path[0] == b.path[0] == q[0];
    if p[0] != TMP { CutsAreSeparate(f, p, q, a, b); }
  }

  // ================================================================ the files of one directory

  ghost function FilesIn(d: string, names: set<string>): set<Path> {
    set n | n in names :: [d, n]
  }

  lemma SegsIn(d: string, names: set<string>)
    ensures ChildSegs(FilesIn(d, names), [d]) == names
    ensures forall n :: ChildSegs(FilesIn(d, names), [d, n]) == {}
  {
    forall n | n in names ensures n in ChildSegs(FilesIn(d, names), [d]) {
      assert [d, n] in FilesIn(d, names) && [d] < [d, n] && [d, n][1] == n;
    }
  }

  lemma CutIn(d: string, names: set<string>, n: string, o: Out)
    requires d != "/tmp" && n in names
    ensures CutOf(FilesIn(d, names), [d, n], o) <==> o == if |names| >= 4 then Out([d], true) else Out([d, n], false)
  {
    var f, p := FilesIn(d, names), [d, n];
    SegsIn(d, names);
    assert p[..1] == [d] && p[..2] == p;
    hide ChildSegs, FilesIn;
    if |names| >= 4 {
      assert FirstFull(f, p, 1, 1);
      assert IsCut(f, p, Out(p[..1], true));
    } else {
      assert forall k :: 1 <= k <= 2 ==> !Full(f, p[..k]);
      assert NoneFull(f, p, 1) && IsCut(f, p, Out(p, false));
    }
    var c := if |names| >= 4 then Out([d], true) else Out([d, n], false);
    if CutOf(f, p, o) { CutUnique(f, p, o, c); }
  }

  /** Up to three files of a directory are listed as they are; four or more become the directory, and so
      does any number of files in /tmp. */
  lemma DirectoryFromFourFiles(d: string, names: set<string>, o: Out)
    requires names != {}
    ensures Aggregated(FilesIn(d, names), o) <==>
      if d == "/tmp" || |names| >= 4 then o == Out([d], true) else exists n :: n in names && o == Out([d, n], false)
  {
    var f := FilesIn(d, names);
    forall n | n in names ensures [d, n] in f {}
    if Aggregated(f, o) {
      var p :| p in f && p != [] && CutOf(f, p, o);
      var n :| n in names && p == [d, n];
      if d != "/tmp" { CutIn(d, names, n, o); }
    }
    if d == "/tmp" || |names| >= 4 {
      var n :| n in names;
      if d != "/tmp" { CutIn(d, names, n, o); }
      assert [d, n] in f;
    } else if n :| n in names && o == Out([d, n], false) {
      CutIn(d, names, n, o);
      assert [d, n] in f;
    }
  }

  // ================================================================ result records

  datatype SysPath = SysPath(path: string, isDir: bool)

  /** Directories are written with a closing slash. */
  function SysPathOf(text: string, isDir: bool): SysPath {
    SysPath(if isDir && !HasSlash(text) then text + "/" else text, isDir)
  }

  /** The text of an output in the results. */
  function Text(o: Out): string {
    SysPathOf(Concat(o.path), o.dir).path
  }

  /** The results are the outputs for the inputs f, each once, in some order. */
  ghost predicate ListsOutputs(results: seq<SysPath>, outs: seq<Out>, f: set<Path>) {
    && |results| == |outs| && NoDuplicates(outs)
    && (forall o :: o in outs <==> Aggregated(f, o))
    && forall i :: 0 <= i < |results| ==> results[i] == SysPathOf(Concat(outs[i].path), outs[i].dir)
  }

  // ================================================================ printing

  /** The map that printing a tree fills: text to directory flag, later children overriding. */
  function Printed(t: Trie, parent: string): map<string, bool>
    decreases t, 1
  {
    if t.kids == [] then map[parent + t.path := t.isDir] else PrintedKids(t.kids, parent + t.path)
  }

  function PrintedKids(kids: seq<Trie>, parent: string): map<string, bool>
    decreases kids, 0
  {
    if kids == [] then map[]
    else PrintedKids(kids[..|kids| - 1], parent) + Printed(kids[|kids| - 1], parent)
  }

  lemma PrintedKidsStep(kids: seq<Trie>, i: nat, parent: string)
    requires i < |kids|
    ensures PrintedKids(kids[..i + 1], parent) == PrintedKids(kids[..i], parent) + Printed(kids[i], parent)
  {
    assert kids[..i + 1][..i] == kids[..i];
  }

  /** An entry of the children's map comes from one of them, and every child's texts are entries. */
  lemma {:induction false} PrintedKidsFrom(kids: seq<Trie>, parent: string, x: string)
    ensures x in PrintedKids(kids, parent) <==> exists i :: 0 <= i < |kids| && x in Printed(kids[i], parent)
    ensures x in PrintedKids(kids, parent) ==>
      exists i :: 0 <= i < |kids| && x in Printed(kids[i], parent)
                  && PrintedKids(kids, parent)[x] == Printed(kids[i], parent)[x]
    decreases |kids|
  {
    if kids != [] {
      var last := |kids| - 1;
      var init := kids[..last];
      PrintedKidsFrom(init, parent, x);
      assert PrintedKids(kids, parent) == PrintedKids(init, parent) + Printed(kids[last], parent);
      if x in Printed(kids[last], parent) {
      } else if x in PrintedKids(init, parent) {
        var i :| 0 <= i < |init| && x in Printed(init[i], parent)
                 && PrintedKids(init, parent)[x] == Printed(init[i], parent)[x];
        assert kids[i] == init[i];
      } else {
        forall i | 0 <= i < |kids| ensures x !in Printed(kids[i], parent) {
          assert i < last ==> kids[i] == init[i];
        }
      }
    }
  }

  /** Every printed text is the text of a leaf with that flag. */
  lemma {:induction false} PrintedIsLeaf(t: Trie, pre: Path, parent: string, x: string) returns (o: Out)
    requires Concat(pre) == parent + t.path && x in Printed(t, parent)
    ensures LeafAt(t, pre, o) && Concat(o.path) == x && Printed(t, parent)[x] == o.dir
    decreases t
  {
    if t.kids == [] {
      o := Out(pre, t.isDir);
    } else {
      PrintedKidsFrom(t.kids, Concat(pre), x);
      var i :| 0 <= i < |t.kids| && x in Printed(t.kids[i], Concat(pre))
               && PrintedKids(t.kids, Concat(pre))[x] == Printed(t.kids[i], Concat(pre))[x];
      ConcatLast(pre, t.kids[i].path);
      o := PrintedIsLeaf(t.kids[i], pre + [t.kids[i].path], Concat(pre), x);
    }
  }

  /** Every leaf's text is printed. */
  lemma {:induction false} LeafIsPrinted(t: Trie, pre: Path, parent: string, o: Out)
    requires Concat(pre) == parent + t.path && LeafAt(t, pre, o)
    ensures Concat(o.path) in Printed(t, parent)
    decreases t
  {
    if t.kids != [] {
      var i :| 0 <= i < |t.kids| && LeafAt(t.kids[i], pre + [t.kids[i].path], o);
      ConcatLast(pre, t.kids[i].path);
      LeafIsPrinted(t.kids[i], pre + [t.kids[i].path], Concat(pre), o);
      PrintedKidsFrom(t.kids, Concat(pre), Concat(o.path));
    }
  }

  lemma ConcatLast(pre: Path, s: string)
    ensures Concat(pre + [s]) == Concat(pre) + s
  {
    ConcatAppend(pre, [s]);
    assert Concat([s]) == s + Concat([]);
  }

  ghost predicate PrintedAs(f: Forest, r: string, x: string, isDir: bool) {
    r in f && x in Printed(f[r], "") && Printed(f[r], "")[x] == isDir
  }

  /** What printing all trees into one map may leave there, in whatever order they come. */
  ghost predicate PrintsForest(f: Forest, m: map<string, bool>) {
    && (forall r, x :: r in f && x in Printed(f[r], "") ==> x in m)
    && forall x :: x in m ==> exists r :: PrintedAs(f, r, x, m[x])
  }

  /** The roots keep their names when aggregated. */
  ghost predicate Named(f: Forest) {
    forall r :: r in f ==> f[r].path == r
  }

  lemma BuildNamed(paths: seq<string>)
    requires Built(paths)
    ensures Named(AggregateForest(BuildForest(paths)))
  {
  }

  lemma RootText(r: string)
    ensures Concat([r]) == "" + r
  {
  }

  /** The printed map holds every output under its text, with its flag. */
  lemma OutputIsPrinted(paths: seq<string>, m: map<string, bool>, o: Out)
    requires Built(paths) && PrintsForest(AggregateForest(BuildForest(paths)), m)
    requires Aggregated(TokenSet(paths), o)
    ensures Concat(o.path) in m && m[Concat(o.path)] == o.dir
  {
    var f := AggregateForest(BuildForest(paths));
    BuildNamed(paths);
    AggregationIsTheCut(paths, o);
    var r :| r in f && LeafAt(f[r], [r], o);
    RootText(r);
    LeafIsPrinted(f[r], [r], "", o);
    var x := Concat(o.path);
    var o' := PrintedIsOutput(paths, m, x);
    OutputShape(paths, o);
    OutputShape(paths, o');
    ConcatInjective(o.path, o'.path);
    OutputsAreSeparate(TokenSet(paths), o, o');
  }

  /** The printed map holds nothing else. */
  lemma PrintedIsOutput(paths: seq<string>, m: map<string, bool>, x: string) returns (o: Out)
    requires Built(paths) && PrintsForest(AggregateForest(BuildForest(paths)), m)
    requires x in m
    ensures Aggregated(TokenSet(paths), o) && Concat(o.path) == x && m[x] == o.dir
  {
    var f := AggregateForest(BuildForest(paths));
    BuildNamed(paths);
    var r :| PrintedAs(f, r, x, m[x]);
    RootText(r);
    o := PrintedIsLeaf(f[r], [r], "", x);
    AggregationIsTheCut(paths, o);
  }

  // ================================================================ literal wildcards

  lemma TokensOfTwo(s: string, a: string, b: string)
    requires s == a + b && IsToken(a) && IsToken(b)
    ensures Tokenize(s) == [a, b]
  {
    assert [a, b][1..] == [b] && [b][1..] == [];
    assert Concat([b]) == b + "" == b;
    assert Concat([a, b]) == s;
    TokenizeConcat([a, b]);
  }

  /** A segment that is literally ".+" swallows its siblings: of /a/.+ and /a/x only the first is
      printed, although neither is an ancestor of the other. */
  lemma LiteralWildcardSwallows()
    ensures var paths, o := ["/a/.+", "/a/x"], Out(["/a", "/x"], false);
      Aggregated(TokenSet(paths), o) && !ForestLeaf(AggregateForest(BuildForest(paths)), o)
  {
    var paths, o := ["/a/.+", "/a/x"], Out(["/a", "/x"], false);
    var f, p, w := TokenSet(paths), ["/a", "/x"], ["/a", "/.+"];
    TokensOfTwo("/a/.+", "/a", "/.+");
    TokensOfTwo("/a/x", "/a", "/x");
    assert p in f by { assert paths[1] in paths; }
    forall q | q in f ensures q == p || q == w {}
    NotFullUpTo(f, p, {"/.+", "/x"});
    assert ChildSegs(f, p) == {};
    SwallowedForest(paths);
  }

  lemma NotFullUpTo(f: set<Path>, p: Path, segs: set<string>)
    requires |segs| <= THRESHOLD
    requires forall q, k :: q in f && 1 <= k < |q| ==> q[k] in segs
    ensures NoneFull(f, p, 1)
  {
    forall k | 1 <= k <= |p| ensures !Full(f, p[..k]) {
      SubsetSize(ChildSegs(f, p[..k]), segs);
    }
  }

  lemma {:induction false} SubsetSize<T>(a: set<T>, b: set<T>)
    requires a <= b
    ensures |a| <= |b|
    decreases a
  {
    if x :| x in a { SubsetSize(a - {x}, b - {x}); }
  }

  lemma SwallowedForest(paths: seq<string>)
    requires paths == ["/a/.+", "/a/x"] && Tokenize(paths[0]) == ["/a", "/.+"] && Tokenize(paths[1]) == ["/a", "/x"]
    ensures !ForestLeaf(AggregateForest(BuildForest(paths)), Out(["/a", "/x"], false))
  {
    var t := Trie("/.+", false, []);
    SwallowedInserts(t);
    assert paths[..1] == ["/a/.+"] && paths[..1][..0] == [];
    assert BuildForest([]) == map[];
    assert BuildForest(paths[..1]) == map["/a" := Trie("/a", false, [t])];
    var f := BuildForest(paths);
    assert f == map["/a" := Trie("/a", false, [t])];
    SwallowedLeaves(t, f["/a"], Out(["/a", "/x"], false));
  }

  lemma SwallowedInserts(t: Trie)
    requires t == Trie("/.+", false, [])
    ensures InsertBelow([], ["/a", "/.+"][1..]) == [t] && InsertBelow([t], ["/a", "/x"][1..]) == [t]
  {
    assert ["/a", "/.+"][1..] == ["/.+"] && ["/a", "/x"][1..] == ["/x"];
    assert ["/.+"][1..] == [] && ["/x"][1..] == [];
    assert [] + [t] == [t];
    assert Find([t], "/x") == 0;
  }

  lemma SwallowedLeaves(t: Trie, r: Trie, o: Out)
    requires t == Trie("/.+", false, []) && r == Trie("/a", false, [t]) && o == Out(["/a", "/x"], false)
    ensures !LeafAt(Aggregate(r), ["/a"], o)
  {
    assert AggregateAll([t]) == [t] by { assert [t][1..] == []; assert Aggregate(t) == t; }
    assert (["/a"] + ["/.+"])[1] == "/.+" && o.path[1] == "/x";
    assert !LeafAt(t, ["/a"] + ["/.+"], o);
  }

  /** One literal wildcard by itself is placed: only what comes after it can go wrong. */
  lemma LoneWildcardIsBuilt()
    ensures Built(["/a/.+"]) && !AllPlainBelow(TokenSet(["/a/.+"]))
  {
    var paths := ["/a/.+"];
    TokensOfTwo("/a/.+", "/a", "/.+");
    assert paths[..0] == [];
    assert ["/a", "/.+"] in TokenSet(paths) by { assert paths[0] in paths; }
    assert ["/a", "/.+"][1..] == ["/.+"] && IsWild(["/.+"][0]);
    NothingBuilt();
    assert Placed([], {}, ["/.+"]) by { assert !Begins({}, ["/.+"]); }
    assert TokenSet([]) == {} && MappedSet({}) == {} && Under({}, "/a") == {};
    BuildStep(paths);
  }

  lemma {:induction false} InsertRepeated(kids: seq<Trie>)
    requires forall i :: 0 <= i < |kids| ==> kids[i] == Trie(WILD_PATH_DIGIT, false, [])
    ensures InsertBelow(kids, [WILD_PATH_DIGIT]) == kids + [Trie(WILD_PATH_DIGIT, false, [])]
  {
    assert !ChildMatches(WILD_PATH_DIGIT, WILD_PATH_DIGIT) by { assert !IsDigit(WILD_PATH_DIGIT[1]); }
    assert Find(kids, WILD_PATH_DIGIT) == |kids|;
    assert [WILD_PATH_DIGIT][1..] == [];
  }

  /** A root with so many children that are all spelled like the digit wildcard. */
  ghost predicate Repeats(f: Forest, n: nat) {
    && f.Keys == {"/a"} && f["/a"].path == "/a" && !f["/a"].isDir && |f["/a"].kids| == n
    && forall i :: 0 <= i < n ==> f["/a"].kids[i] == Trie(WILD_PATH_DIGIT, false, [])
  }

  lemma RepeatOnce(f: Forest, n: nat, p: Path)
    requires if n == 0 then f == map[] else Repeats(f, n)
    requires p == ["/a", WILD_PATH_DIGIT]
    ensures Repeats(InsertRoot(f, p), n + 1)
  {
    assert p[1..] == [WILD_PATH_DIGIT] && Mapped(p) == p;
    InsertRepeated(if n == 0 then [] else f["/a"].kids);
    hide InsertBelow;
  }

  lemma {:induction false} RepeatedForest(paths: seq<string>, s: string)
    requires paths != [] && Tokenize(s) == ["/a", WILD_PATH_DIGIT]
    requires forall i :: 0 <= i < |paths| ==> paths[i] == s
    ensures Repeats(BuildForest(paths), |paths|)
    decreases |paths|
  {
    var init := paths[..|paths| - 1];
    hide Repeats, InsertRoot, Tokenize;
    if init != [] { RepeatedForest(init, s); }
    RepeatOnce(BuildForest(init), |init|, Tokenize(s));
  }

  /** A file without siblings is an output. */
  lemma SoleFile(paths: seq<string>, s: string, p: Path)
    requires paths != [] && (forall i :: 0 <= i < |paths| ==> paths[i] == s) && Tokenize(s) == p
    requires |p| == 2 && p[0] != TMP
    ensures Aggregated(TokenSet(paths), Out(p, false))
  {
    var f := TokenSet(paths);
    assert p in f by { assert paths[0] in paths; }
    forall q | q in f ensures q == p {}
    NotFullUpTo(f, p, {p[1]});
    assert ChildSegs(f, p) == {};
  }

  lemma RepeatedBecomesDirectory(t: Trie)
    requires t.path == "/a" && |t.kids| > THRESHOLD
    ensures LeafAt(Aggregate(t), ["/a"], Out(["/a"], true))
    ensures forall p :: !LeafAt(Aggregate(t), ["/a"], Out(p, false))
  {
  }

  lemma RepeatedLeaves(f: Forest)
    requires Repeats(f, THRESHOLD + 1)
    ensures ForestLeaf(AggregateForest(f), Out(["/a"], true))
    ensures forall p :: !ForestLeaf(AggregateForest(f), Out(p, false))
  {
    RepeatedBecomesDirectory(f["/a"]);
    hide LeafAt, Aggregate;
    assert AggregateForest(f).Keys == {"/a"};
  }

  /** A segment that is literally "[0-9]+" does not find itself: the same path four times becomes its
      directory, although it is a file without siblings. */
  lemma LiteralDigitsRepeat(paths: seq<string>)
    requires |paths| == 4 && forall i :: 0 <= i < |paths| ==> paths[i] == "/a/[0-9]+"
    ensures Aggregated(TokenSet(paths), Out(["/a", WILD_PATH_DIGIT], false))
    ensures ForestLeaf(AggregateForest(BuildForest(paths)), Out(["/a"], true))
    ensures !ForestLeaf(AggregateForest(BuildForest(paths)), Out(["/a", WILD_PATH_DIGIT], false))
  {
    var s := "/a/[0-9]+";
    TokensOfTwo(s, "/a", WILD_PATH_DIGIT);
    hide *;
    SoleFile(paths, s, ["/a", WILD_PATH_DIGIT]);
    RepeatedForest(paths, s);
    RepeatedLeaves(BuildForest(paths));
  }
}
