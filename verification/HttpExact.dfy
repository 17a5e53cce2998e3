/** Exactly which paths the HTTP trie covers in every run, and for which every run prints only justified
    patterns. */
module HttpExact {
  import opened Paths
  import opened HttpTrie
  import opened HttpForest

  // ================================================================ the runs of one path

  /** A tree without branches. */
  predicate Chain(t: Tree) {
    |t.kids| <= 1 && forall i :: 0 <= i < |t.kids| ==> Chain(t.kids[i])
  }

  /** The tree of one path. */
  function Alone(p: Path): Tree
    requires p != []
  {
    Visit(Fresh(p[0]), p)
  }

  lemma AloneIs(p: Path)
    requires p != []
    ensures Alone(p) == Tree(p[0], [p], if |p| == 1 then [] else [Alone(p[1..])])
  {
    var none: seq<Path> := [];
    assert none + [p] == [p];
    if |p| > 1 {
      assert Find([], p[1..][0]) == 0;
      assert InsertBelow([], p[1..]) == [] + [Visit(Fresh(p[1..][0]), p[1..])];
    }
  }

  lemma {:induction false} AloneIsChain(p: Path)
    requires p != []
    ensures Chain(Alone(p))
    decreases |p|
  {
    AloneIs(p);
    if |p| > 1 { AloneIsChain(p[1..]); }
  }

  /** Above a threshold of one or more a chain stays as it is. */
  lemma {:induction false} ChainIsStable(t: Tree, threshold: nat)
    requires Chain(t) && threshold >= 1
    ensures Aggregates(t, t, threshold)
    decreases t
  {
    forall i | 0 <= i < |t.kids| ensures Aggregates(t.kids[i], t.kids[i], threshold) {
      ChainIsStable(t.kids[i], threshold);
    }
    assert t.(kids := t.kids) == t;
    assert CollapseStep(t.(kids := t.kids), t, threshold);
  }

  /** The wildcard for one child. */
  function WildFor(path: string): string {
    if AtoiOk(WithoutSlash(path)) then WILD_PATH_DIGIT else WILD_PATH_CHAR
  }

  /** With a threshold of zero every node of a chain but the root becomes a wildcard. */
  function Wildened(t: Tree): Tree {
    if t.kids == [] then t
    else
      var k := Wildened(t.kids[0]);
      Tree(t.path, t.seen, [Tree(WildFor(k.path), k.seen, k.kids)])
  }

  lemma {:induction false} WildenedIsChain(t: Tree)
    requires Chain(t)
    ensures Chain(Wildened(t)) && Wildened(t).path == t.path && Wildened(t).seen == t.seen
    decreases t
  {
    if t.kids != [] { WildenedIsChain(t.kids[0]); }
  }

  lemma WildOne(k: Tree)
    ensures WildChild([k]) == Tree(WildFor(k.path), k.seen, k.kids)
  {
    assert [k][1..] == [];
    assert Arrivals([k]) == k.seen + [] && GrandKids([k]) == k.kids + [];
    assert DigitsOnly([k]) <==> AtoiOk(WithoutSlash([k][0].path));
  }

  lemma {:induction false} ChainIsWildened(t: Tree)
    requires Chain(t)
    ensures Aggregates(t, Wildened(t), 0)
    decreases t
  {
    if t.kids == [] {
      assert CollapseStep(t.(kids := []), t, 0);
    } else {
      var k := Wildened(t.kids[0]);
      ChainIsWildened(t.kids[0]);
      WildenedIsChain(t.kids[0]);
      WildOne(k);
      assert DistinctPaths(k.kids);
      assert CollapseStep(t.(kids := [k]), Wildened(t), 0);
    }
  }

  /** The patterns of the length of the path have its segments. */
  lemma {:induction false} AlonePattern(p: Path, q: Pattern, i: nat)
    requires p != [] && IsPattern(Alone(p), q) && |q.segs| == |p| && i < |p|
    ensures q.segs[i] == Meaning(p[i])
    decreases |p|
  {
    AloneIs(p);
    if i > 0 {
      assert IsKidPattern(Alone(p).kids, Rest(q));
      AlonePattern(p[1..], Rest(q), i - 1);
    }
  }

  /** The same for the wildened tree, whatever the text of its root. */
  lemma {:induction false} WildenedPattern(root: string, p: Path, q: Pattern, i: nat)
    requires p != [] && |q.segs| == |p| && 0 < i < |p|
    requires var t := Wildened(Alone(p)); IsPattern(Tree(root, t.seen, t.kids), q)
    ensures q.segs[i] == Meaning(WildFor(p[i]))
    decreases |p|
  {
    AloneIs(p);
    AloneIsChain(p[1..]);
    AloneIs(p[1..]);
    WildenedIsChain(Alone(p[1..]));
    var t, k := Wildened(Alone(p)), Wildened(Alone(p[1..]));
    var kid := Tree(WildFor(p[1]), k.seen, k.kids);
    assert t.kids == [kid];
    assert IsKidPattern([kid], Rest(q)) && IsPattern(kid, Rest(q));
    if i == 1 {
      assert Rest(q).segs[0] == Meaning(kid.path);
    } else {
      WildenedPattern(WildFor(p[1]), p[1..], Rest(q), i - 1);
    }
  }

  // ================================================================ a run that loses the path

  /** A batch with just the text of the path. */
  lemma OneText(p: Path)
    requires p != [] && AllTokens(p)
    ensures Usable([Concat(p)]) && Inserted([Concat(p)]) == [p]
    ensures forall x :: Offered([[Concat(p)]], x) <==> x == p
  {
    var s := Concat(p);
    TokenizeConcat(p);
    ConcatStartsWithSlash(p);
    assert |s| >= 2 && s != "/";
    assert [s][1..] == [] && LexSort([s]) == [s];
    assert TokensOf([s]) == [Tokenize(s)] + TokensOf([]);
    forall x ensures Offered([[s]], x) <==> x == p {
      if x == p { assert s in [[s]][0] && HasTokens(s, p); }
    }
  }

  lemma OneRound(p: Path, t: Tree, threshold: nat) returns (fs: seq<Forest>)
    requires p != [] && AllTokens(p) && Aggregates(Alone(p), t, threshold)
    ensures Rounds(fs, [[Concat(p)]], [threshold]) && fs[1] == map[p[0] := t]
  {
    OneText(p);
    hide Aggregates;
    var ps, none: seq<Path> := [p], [];
    assert ps[..|ps| - 1] == none && InsertAll(map[], none) == map[];
    var f := InsertAll(map[], ps);
    assert f == map[p[0] := Alone(p)];
    fs := [map[], map[p[0] := t]];
    assert AggregatesAll(f, fs[1], threshold);
    assert Round(fs[0], [Concat(p)], fs[1], threshold);
  }

  /** A path that is not coverable, offered alone, is lost under some threshold: zero if a segment has a sign,
      any other if one is spelled like the digit wildcard. */
  lemma LostAlone(p: Path) returns (fs: seq<Forest>, ths: seq<nat>)
    requires p != [] && AllTokens(p) && !Coverable(p)
    ensures Rounds(fs, [[Concat(p)]], ths) && !PathCovered(fs[1], p)
  {
    AloneIsChain(p);
    if i :| 0 <= i < |p| && p[i] == WILD_PATH_DIGIT {
      ChainIsStable(Alone(p), 1);
      fs := OneRound(p, Alone(p), 1);
      ths := [1];
      forall q | PrintsPattern(fs[1], q) ensures !Matches(q, p) {
        if |q.segs| == |p| { LiteralAt(p, q, i); }
      }
    } else {
      var i := SignedAt(p);
      ChainIsWildened(Alone(p));
      fs := OneRound(p, Wildened(Alone(p)), 0);
      ths := [0];
      forall q | PrintsPattern(fs[1], q) ensures !Matches(q, p) {
        if |q.segs| == |p| { NumberAt(p, q, i); }
      }
    }
  }

  lemma SignedAt(p: Path) returns (i: nat)
    requires p != [] && !Coverable(p) && NoDigitWildcard(p)
    ensures 0 < i < |p| && AtoiOk(WithoutSlash(p[i])) && !IsNumber(p[i])
  {
    var j :| 0 <= j < |p[1..]| && !SafeSeg(p[1..][j]);
    i := j + 1;
    assert p[i] == p[1..][j];
  }

  lemma LiteralAt(p: Path, q: Pattern, i: nat)
    requires p != [] && |q.segs| == |p| && i < |p| && p[i] == WILD_PATH_DIGIT && IsPattern(Alone(p), q)
    ensures !Matches(q, p)
  {
    AlonePattern(p, q, i);
    assert !IsDigit(WILD_PATH_DIGIT[1]);
    assert !SegMatches(q.segs[i], p[i]);
  }

  lemma NumberAt(p: Path, q: Pattern, i: nat)
    requires p != [] && |q.segs| == |p| && 0 < i < |p| && IsPattern(Wildened(Alone(p)), q)
    requires AtoiOk(WithoutSlash(p[i])) && !IsNumber(p[i])
    ensures !Matches(q, p)
  {
    var t := Wildened(Alone(p));
    assert t == Tree(t.path, t.seen, t.kids);
    WildenedPattern(t.path, p, q, i);
    assert !SegMatches(q.segs[i], p[i]);
  }

  // ================================================================ exactness over all runs

  /** A path is covered in every run that offers it, whatever else it offers, exactly when it is coverable. */
  lemma CoveredAlwaysExactly(p: Path)
    requires p != [] && AllTokens(p)
    ensures (forall fs, batches, ths :: Rounds(fs, batches, ths) && Offered(batches, p) ==>
              PathCovered(fs[|batches|], p)) <==> Coverable(p)
  {
    if Coverable(p) {
      forall fs, batches, ths | Rounds(fs, batches, ths) && Offered(batches, p) ensures PathCovered(fs[|batches|], p) {
        var q := EveryPathIsCovered(fs, batches, ths, p);
      }
    } else {
      var fs, ths := LostAlone(p);
      OneText(p);
      assert Rounds(fs, [[Concat(p)]], ths) && Offered([[Concat(p)]], p);
    }
  }

  ghost predicate OffersOnly(batches: seq<seq<string>>, ps: iset<Path>) {
    forall p :: Offered(batches, p) ==> p in ps
  }

  /** Some offered path matches the pattern. */
  ghost predicate PatternJustified(batches: seq<seq<string>>, q: Pattern) {
    exists p :: Offered(batches, p) && Matches(q, p)
  }

  ghost predicate AllJustified(f: Forest, batches: seq<seq<string>>) {
    forall q :: PrintsPattern(f, q) ==> PatternJustified(batches, q)
  }

  /** Of given paths every run prints only patterns that an offered path matches exactly when all of them are
      coverable. */
  lemma JustifiedAlwaysExactly(ps: iset<Path>)
    requires forall p :: p in ps ==> p != [] && AllTokens(p)
    ensures (forall fs, batches, ths :: Rounds(fs, batches, ths) && OffersOnly(batches, ps) ==>
              AllJustified(fs[|batches|], batches)) <==> forall p :: p in ps ==> Coverable(p)
  {
    if forall p :: p in ps ==> Coverable(p) {
      forall fs, batches, ths | Rounds(fs, batches, ths) && OffersOnly(batches, ps)
        ensures AllJustified(fs[|batches|], batches)
      {
        forall q | PrintsPattern(fs[|batches|], q) ensures PatternJustified(batches, q) {
          var p := EveryPatternIsJustified(fs, batches, ths, q);
        }
      }
    } else {
      var p :| p in ps && !Coverable(p);
      var fs, ths := LostAlone(p);
      OneText(p);
      var batches := [[Concat(p)]];
      var q := EveryPathIsCovered(fs, batches, ths, p);
      assert !PatternJustified(batches, q);
      assert OffersOnly(batches, ps) && !AllJustified(fs[|batches|], batches);
    }
  }
}
