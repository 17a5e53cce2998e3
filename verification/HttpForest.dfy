/** Rounds of HTTP path aggregation on one persistent map of trees: insert a batch of paths, merge
    siblings into wildcards, print. The theorems hold after any number of rounds. */
module HttpForest {
  import opened Paths
  import opened HttpTrie

  type Forest = map<string, Tree>

  // ================================================================ one round

  /** Insert one tokenized path; the first token names the root. */
  function VisitRoot(f: Forest, p: Path): Forest
    requires p != []
  {
    f[p[0] := Visit(if p[0] in f then f[p[0]] else Fresh(p[0]), p)]
  }

  predicate NoneEmpty(ps: seq<Path>) {
    forall i :: 0 <= i < |ps| ==> ps[i] != []
  }

  function InsertAll(f: Forest, ps: seq<Path>): Forest
    requires NoneEmpty(ps)
    decreases |ps|
  {
    if ps == [] then f else VisitRoot(InsertAll(f, ps[..|ps| - 1]), ps[|ps| - 1])
  }

  /** The tokens of the paths of a batch, without the root path "/". */
  function TokensOf(batch: seq<string>): seq<Path> {
    if batch == [] then []
    else (if batch[0] == "/" then [] else [Tokenize(batch[0])]) + TokensOf(batch[1..])
  }

  /** Every path but "/" has a first token; the program reads it without a check. */
  predicate Usable(batch: seq<string>) {
    forall i :: 0 <= i < |batch| ==> batch[i] == "/" || Tokenize(batch[i]) != []
  }

  /** A path without a slash, at which the program panics. */
  lemma RelativePathIsUnusable()
    ensures !Usable(["login"])
  {
    NoTokenExactly("login");
    assert ["login"][0] == "login" && "login"[0] != '/';
  }

  predicate HasTokens(s: string, p: Path) {
    s != "/" && Tokenize(s) == p
  }

  lemma {:induction false} TokensOfMembers(batch: seq<string>, p: Path)
    ensures p in TokensOf(batch) <==> exists s :: s in batch && HasTokens(s, p)
  {
    if batch != [] {
      TokensOfMembers(batch[1..], p);
      assert forall s :: s in batch <==> s == batch[0] || s in batch[1..];
      assert p in TokensOf(batch) <==> HasTokens(batch[0], p) || p in TokensOf(batch[1..]);
    }
  }

  lemma {:induction false} TokensOfAppend(a: seq<string>, b: seq<string>)
    ensures TokensOf(a + b) == TokensOf(a) + TokensOf(b)
  {
    if a == [] {
      assert a + b == b;
    } else {
      assert (a + b)[1..] == a[1..] + b;
      TokensOfAppend(a[1..], b);
    }
  }

  lemma TokensUsable(batch: seq<string>)
    requires Usable(batch)
    ensures NoneEmpty(TokensOf(batch))
    ensures Usable(LexSort(batch))
  {
    forall i | 0 <= i < |TokensOf(batch)| ensures TokensOf(batch)[i] != [] {
      TokensOfMembers(batch, TokensOf(batch)[i]);
    }
    LexSortMembers(batch);
    assert forall i :: 0 <= i < |LexSort(batch)| ==> LexSort(batch)[i] in batch;
  }

  /** The paths of a batch in the order they are inserted. */
  function Inserted(batch: seq<string>): (ps: seq<Path>)
    requires Usable(batch)
    ensures NoneEmpty(ps)
  {
    TokensUsable(batch);
    TokensUsable(LexSort(batch));
    TokensOf(LexSort(batch))
  }

  lemma InsertedMembers(batch: seq<string>, p: Path)
    requires Usable(batch)
    ensures p in Inserted(batch) <==> exists s :: s in batch && HasTokens(s, p)
  {
    LexSortMembers(batch);
    TokensOfMembers(LexSort(batch), p);
  }

  ghost predicate AggregatesAll(f: Forest, f': Forest, threshold: nat) {
    f'.Keys == f.Keys && forall r :: r in f ==> Aggregates(f[r], f'[r], threshold)
  }

  ghost predicate Round(f: Forest, batch: seq<string>, f': Forest, threshold: nat) {
    Usable(batch) && AggregatesAll(InsertAll(f, Inserted(batch)), f', threshold)
  }

  function PrintedForest(f: Forest): set<string> {
    set r, x | r in f && x in Printed(f[r], "") :: x
  }

  /** Any number of rounds, starting from no trees; each reads the configured threshold anew. */
  ghost predicate Rounds(fs: seq<Forest>, batches: seq<seq<string>>, ths: seq<nat>) {
    && |fs| == |batches| + 1 == |ths| + 1 && fs[0] == map[]
    && (forall k :: 0 <= k < |batches| ==> Usable(batches[k]))
    && forall k :: 0 <= k < |batches| ==> Round(fs[k], batches[k], fs[k + 1], ths[k])
  }

  // ================================================================ the invariant over rounds

  function WithHead(ps: seq<Path>, r: string): seq<Path> {
    if ps == [] then []
    else WithHead(ps[..|ps| - 1], r) + if ps[|ps| - 1] != [] && ps[|ps| - 1][0] == r then [ps[|ps| - 1]] else []
  }

  /** Each root has seen exactly the paths that start with it, in insertion order. */
  ghost predicate Accounts(f: Forest, ps: seq<Path>) {
    && (forall r :: r in f <==> WithHead(ps, r) != [])
    && forall r :: r in f ==> f[r].path == r && f[r].seen == WithHead(ps, r) && WF(f[r], false)
  }

  lemma {:induction false} WithHeadMembers(ps: seq<Path>, r: string, p: Path)
    ensures p in WithHead(ps, r) <==> p in ps && p != [] && p[0] == r
  {
    if ps != [] {
      var last := |ps| - 1;
      WithHeadMembers(ps[..last], r, p);
      assert ps == ps[..last] + [ps[last]];
    }
  }

  lemma WithHeadLast(ps: seq<Path>, p: Path, r: string)
    requires p != []
    ensures WithHead(ps + [p], r) == WithHead(ps, r) + if p[0] == r then [p] else []
  {
    assert (ps + [p])[..|ps|] == ps;
  }

  lemma VisitRootAccounts(f: Forest, ps: seq<Path>, p: Path)
    requires Accounts(f, ps) && p != []
    ensures Accounts(VisitRoot(f, p), ps + [p])
  {
    hide WF, InsertBelow, WithHead;
    var f' := VisitRoot(f, p);
    InsertKeepsWF(if p[0] in f then f[p[0]] else Fresh(p[0]), p);
    forall r
      ensures r in f' <==> WithHead(ps + [p], r) != []
      ensures r in f' ==> f'[r].path == r && f'[r].seen == WithHead(ps + [p], r) && WF(f'[r], false)
    {
      WithHeadLast(ps, p, r);
    }
  }

  lemma {:induction false} InsertAllAccounts(f: Forest, ps: seq<Path>, more: seq<Path>)
    requires Accounts(f, ps) && NoneEmpty(more)
    ensures Accounts(InsertAll(f, more), ps + more)
    decreases |more|
  {
    if more == [] {
      assert ps + more == ps;
    } else {
      var last := |more| - 1;
      var init := more[..last];
      InsertAllAccounts(f, ps, init);
      VisitRootAccounts(InsertAll(f, init), ps + init, more[last]);
      AppendLast(ps, more);
    }
  }

  lemma AggregateAccounts(f: Forest, f': Forest, ps: seq<Path>, threshold: nat)
    requires Accounts(f, ps) && AggregatesAll(f, f', threshold)
    ensures Accounts(f', ps)
  {
    forall r | r in f'
      ensures f'[r].path == r && f'[r].seen == WithHead(ps, r) && WF(f'[r], false)
    {
      AggregateKeepsWF(f[r], f'[r], threshold);
    }
  }

  /** All paths inserted in the first n rounds, in order. */
  function History(batches: seq<seq<string>>): seq<Path>
    requires forall k :: 0 <= k < |batches| ==> Usable(batches[k])
  {
    if batches == [] then []
    else History(batches[..|batches| - 1]) + Inserted(batches[|batches| - 1])
  }

  lemma {:induction false} HistoryMembers(batches: seq<seq<string>>, p: Path)
    requires forall k :: 0 <= k < |batches| ==> Usable(batches[k])
    ensures p in History(batches) <==> Offered(batches, p)
  {
    if batches != [] {
      var last := |batches| - 1;
      HistoryMembers(batches[..last], p);
      InsertedMembers(batches[last], p);
      if Offered(batches[..last], p) {
        var k, s :| 0 <= k < last && s in batches[..last][k] && HasTokens(s, p);
        assert s in batches[k];
      }
      if Offered(batches, p) {
        var k, s :| 0 <= k <= last && s in batches[k] && HasTokens(s, p);
        if k < last { assert s in batches[..last][k]; }
      }
    }
  }

  /** p is the token list of some path other than "/" of some batch. */
  ghost predicate Offered(batches: seq<seq<string>>, p: Path) {
    exists k, s :: 0 <= k < |batches| && s in batches[k] && HasTokens(s, p)
  }

  lemma {:induction false} RoundsAccount(fs: seq<Forest>, batches: seq<seq<string>>, ths: seq<nat>)
    requires Rounds(fs, batches, ths)
    ensures Accounts(fs[|batches|], History(batches))
    decreases |batches|
  {
    if batches != [] {
      hide Accounts;
      var last := |batches| - 1;
      var bs := batches[..last];
      EarlierRounds(fs, batches, ths);
      RoundsAccount(fs[..last + 1], bs, ths[..last]);
      assert Round(fs[last], batches[last], fs[last + 1], ths[last]);
      RoundAccounts(fs[last], History(bs), batches[last], fs[last + 1], ths[last]);
    }
  }

  lemma EarlierRounds(fs: seq<Forest>, batches: seq<seq<string>>, ths: seq<nat>)
    requires Rounds(fs, batches, ths) && batches != []
    ensures Rounds(fs[..|batches|], batches[..|batches| - 1], ths[..|batches| - 1])
  {
    hide Round;
    var fs', bs := fs[..|batches|], batches[..|batches| - 1];
    forall k | 0 <= k < |bs| ensures Round(fs'[k], bs[k], fs'[k + 1], ths[k]) {
      assert Round(fs[k], batches[k], fs[k + 1], ths[k]);
    }
  }

  /** One round extends the account by the batch. */
  lemma RoundAccounts(f: Forest, ps: seq<Path>, batch: seq<string>, f': Forest, threshold: nat)
    requires Accounts(f, ps) && Round(f, batch, f', threshold)
    ensures Accounts(f', ps + Inserted(batch))
  {
    hide Accounts;
    InsertAllAccounts(f, ps, Inserted(batch));
    AggregateAccounts(InsertAll(f, Inserted(batch)), f', ps + Inserted(batch), threshold);
  }

  /** One more round. */
  lemma RoundsStep(fs: seq<Forest>, batches: seq<seq<string>>, ths: seq<nat>, batch: seq<string>, f': Forest,
                   threshold: nat)
    requires Rounds(fs, batches, ths) && Round(fs[|batches|], batch, f', threshold)
    ensures Rounds(fs + [f'], batches + [batch], ths + [threshold]) && |fs| == |batches| + 1
  {
    hide Round;
    var fs', bs, ts := fs + [f'], batches + [batch], ths + [threshold];
    RoundIsUsable(fs[|batches|], batch, f', threshold);
    forall k | 0 <= k < |bs| ensures Round(fs'[k], bs[k], fs'[k + 1], ts[k]) {
      if k < |batches| { assert Round(fs[k], batches[k], fs[k + 1], ths[k]); }
    }
  }

  lemma RoundIsUsable(f: Forest, batch: seq<string>, f': Forest, threshold: nat)
    requires Round(f, batch, f', threshold)
    ensures Usable(batch)
  {
  }

  // ================================================================ main theorems

  ghost predicate PrintsPattern(f: Forest, q: Pattern) {
    exists r :: r in f && IsPattern(f[r], q)
  }

  lemma RootPrinted(t: Tree, x: string)
    ensures x in Printed(t, "") <==> exists q :: IsPattern(t, q) && x == Render(q)
  {
    PrintedArePatterns(t, "", x);
    if IsRendering(t, "", x) {
      var q :| IsPattern(t, q) && x == "" + Render(q);
      assert "" + Render(q) == Render(q);
    }
    if q :| IsPattern(t, q) && x == Render(q) {
      assert "" + Render(q) == Render(q);
    }
  }

  /** The first segment names a root and is never replaced; it must not be spelled like the digit wildcard.
      The others must be safe. */
  predicate Coverable(p: Path) {
    p != [] && p[0] != WILD_PATH_DIGIT && SafePath(p[1..])
  }

  ghost predicate PathCovered(f: Forest, p: Path) {
    exists q :: PrintsPattern(f, q) && Matches(q, p)
  }

  lemma RootIsApt(f: Forest, ps: seq<Path>, p: Path)
    requires Accounts(f, ps) && p in ps && p != []
    ensures p[0] in f && p in f[p[0]].seen && WF(f[p[0]], false) && f[p[0]].path == p[0]
    ensures Coverable(p) ==> Apt(p[0], p, false)
  {
    WithHeadMembers(ps, p[0], p);
  }

  /** After any number of rounds, every path ever offered leads to a pattern that is printed, and it
      matches that pattern, segment by segment, if it is coverable, whatever else was offered. */
  lemma EveryPathIsCovered(fs: seq<Forest>, batches: seq<seq<string>>, ths: seq<nat>, p: Path) returns (q: Pattern)
    requires Rounds(fs, batches, ths) && Offered(batches, p)
    ensures PrintsPattern(fs[|batches|], q) && |q.segs| == |p| && (Coverable(p) ==> Matches(q, p))
    ensures q.segs != [] && Render(q) in PrintedForest(fs[|batches|])
  {
    RoundsAccount(fs, batches, ths);
    HistoryMembers(batches, p);
    var f := fs[|batches|];
    OfferedIsNotEmpty(fs, batches, ths, p);
    RootIsApt(f, History(batches), p);
    hide Rounds, IsPattern, WF, Printed, Matches, Coverable, Apt;
    q := Complete(f[p[0]], p, false);
    RootPrinted(f[p[0]], Render(q));
  }

  lemma OfferedIsNotEmpty(fs: seq<Forest>, batches: seq<seq<string>>, ths: seq<nat>, p: Path)
    requires Rounds(fs, batches, ths) && Offered(batches, p)
    ensures p != []
  {
    var k, s :| 0 <= k < |batches| && s in batches[k] && HasTokens(s, p);
    var i :| 0 <= i < |batches[k]| && batches[k][i] == s;
    assert Usable(batches[k]);
  }

  /** After any number of rounds, everything printed is the text of a pattern that stems from an offered
      path, which matches it if it is coverable. */
  lemma EveryPatternIsJustified(fs: seq<Forest>, batches: seq<seq<string>>, ths: seq<nat>, q: Pattern)
      returns (p: Path)
    requires Rounds(fs, batches, ths) && PrintsPattern(fs[|batches|], q)
    ensures Offered(batches, p) && |q.segs| == |p| && (Coverable(p) ==> Matches(q, p))
  {
    RoundsAccount(fs, batches, ths);
    var f := fs[|batches|];
    var r :| r in f && IsPattern(f[r], q);
    p := Sound(f[r], q, false);
    WithHeadMembers(History(batches), r, p);
    RootIsApt(f, History(batches), p);
    HistoryMembers(batches, p);
  }

  /** The printed texts are those of the printed patterns. */
  lemma PrintedTexts(f: Forest, x: string)
    ensures x in PrintedForest(f) <==> exists q :: PrintsPattern(f, q) && q.segs != [] && Render(q) == x
  {
    forall r | r in f { RootPrinted(f[r], x); }
  }

  // ================================================================ touch counts

  /** The number of paths that ended at a node: its own count less its children's. */
  function Residue(t: Tree): int { |t.seen| - |Arrivals(t.kids)| }

  function TotalResidue(t: Tree): int
    decreases t, 1
  {
    Residue(t) + TotalResidues(t.kids)
  }

  function TotalResidues(kids: seq<Tree>): int
    decreases kids, 0
  {
    if kids == [] then 0 else TotalResidue(kids[0]) + TotalResidues(kids[1..])
  }

  /** Each count is at least the sum of the children's, and the residues of a tree add up to the
      count at its root. */
  lemma {:induction false} ResiduesAddUp(t: Tree)
    requires WF(t, false)
    ensures Residue(t) >= 0 && TotalResidue(t) == |t.seen|
    decreases t, 1
  {
    EndsHereMeans(t, false);
    KidsAddUp(t.kids);
  }

  lemma {:induction false} KidsAddUp(kids: seq<Tree>)
    requires AllWF(kids, false)
    ensures TotalResidues(kids) == |Arrivals(kids)|
    decreases kids, 0
  {
    if kids != [] {
      ResiduesAddUp(kids[0]);
      KidsAddUp(kids[1..]);
    }
  }

  /** No round loses or invents a count: the residues below a root add up to the number of offered
      paths that start with it. */
  lemma CountsAreConserved(fs: seq<Forest>, batches: seq<seq<string>>, ths: seq<nat>, r: string)
    requires Rounds(fs, batches, ths) && r in fs[|batches|]
    ensures TotalResidue(fs[|batches|][r]) == |fs[|batches|][r].seen| == |WithHead(History(batches), r)|
  {
    RoundsAccount(fs, batches, ths);
    ResiduesAddUp(fs[|batches|][r]);
  }

  // ================================================================ exactness below the threshold

  /** Two of the siblings have texts of different length. */
  ghost predicate Uneven(kids: seq<Tree>) {
    exists i, j :: 0 <= i < |kids| && 0 <= j < |kids| && |kids[i].path| != |kids[j].path|
  }

  /** No wildcard, and no node with more children than the threshold whose texts all have one length. */
  ghost predicate Plain(t: Tree, threshold: nat)
    decreases t
  {
    && !IsWild(t.path) && (|t.kids| <= threshold || Uneven(t.kids))
    && forall i :: 0 <= i < |t.kids| ==> Plain(t.kids[i], threshold)
  }

  lemma {:induction false} PlainIsStable(t: Tree, t': Tree, threshold: nat)
    requires Plain(t, threshold) && Aggregates(t, t', threshold)
    ensures t' == t
    decreases t
  {
    var mids: seq<Tree> :|
      && |mids| == |t.kids|
      && (forall i :: 0 <= i < |mids| ==> Aggregates(t.kids[i], mids[i], threshold))
      && CollapseStep(t.(kids := mids), t', threshold);
    forall i | 0 <= i < |mids| ensures mids[i] == t.kids[i] {
      PlainIsStable(t.kids[i], mids[i], threshold);
    }
    assert mids == t.kids;
  }

  lemma {:induction false} PlainPatternsAreLiteral(t: Tree, threshold: nat, q: Pattern, p: Path)
    requires Plain(t, threshold) && IsPattern(t, q) && Matches(q, p)
    ensures Render(q) == Concat(p)
    decreases t
  {
    MatchesStep(q, p);
    if |q.segs| == 1 {
      assert p == [p[0]] && Concat(p) == p[0] + Concat([]);
    } else {
      assert IsKidPattern(t.kids, Rest(q));
      var i :| 0 <= i < |t.kids| && IsPattern(t.kids[i], Rest(q));
      PlainPatternsAreLiteral(t.kids[i], threshold, Rest(q), p[1..]);
    }
  }

  /** Where there is no wildcard, nothing is excused. */
  lemma {:induction false} PlainIsStrict(t: Tree, threshold: nat)
    requires WF(t, false) && Plain(t, threshold)
    ensures WF(t, true)
    decreases t
  {
    forall i | 0 <= i < |t.kids| ensures WF(t.kids[i], true) { PlainIsStrict(t.kids[i], threshold); }
  }

  lemma PlainTreePrintsItsPaths(t: Tree, threshold: nat, x: string)
    requires WF(t, false) && Plain(t, threshold)
    ensures x in Printed(t, "") <==> exists p :: p in t.seen && Concat(p) == x
  {
    RootPrinted(t, x);
    PlainIsStrict(t, threshold);
    if x in Printed(t, "") {
      var q :| IsPattern(t, q) && x == Render(q);
      var p := Sound(t, q, true);
      assert p != [];
      PlainPatternsAreLiteral(t, threshold, q, p);
    }
    if p :| p in t.seen && Concat(p) == x {
      assert p != [];
      var q := Complete(t, p, true);
      PlainPatternsAreLiteral(t, threshold, q, p);
    }
  }

  /** When no wildcard exists and no node has more children than the threshold, or those that have more have
      children of different length, a round prints exactly the offered paths. */
  lemma PlainForestPrintsItsPaths(f: Forest, ps: seq<Path>, f': Forest, threshold: nat)
    requires Accounts(f, ps) && AggregatesAll(f, f', threshold)
    requires forall r :: r in f ==> Plain(f[r], threshold)
    ensures f' == f
    ensures forall x :: x in PrintedForest(f') <==> exists p :: p in ps && p != [] && Concat(p) == x
  {
    hide Plain, WF, Aggregates, Printed, WithHead;
    forall r | r in f ensures f'[r] == f[r] { PlainIsStable(f[r], f'[r], threshold); }
    forall x ensures x in PrintedForest(f) <==> exists p :: p in ps && p != [] && Concat(p) == x {
      if x in PrintedForest(f) {
        var r :| r in f && x in Printed(f[r], "");
        PlainTreePrintsItsPaths(f[r], threshold, x);
        var p :| p in f[r].seen && Concat(p) == x;
        WithHeadMembers(ps, r, p);
      }
      if p :| p in ps && p != [] && Concat(p) == x {
        WithHeadMembers(ps, p[0], p);
        PlainTreePrintsItsPaths(f[p[0]], threshold, x);
      }
    }
  }

  // ================================================================ signed numbers are not covered

  function SignedPaths(): seq<Path> {
    [["/a", "/+1"], ["/a", "/+2"], ["/a", "/+3"], ["/a", "/+4"]]
  }

  function Leaf(s: string): Tree { Tree(s, [[s]], []) }

  function SignedKids(): seq<Tree> {
    [Leaf("/+1"), Leaf("/+2"), Leaf("/+3"), Leaf("/+4")]
  }

  lemma AtoiAcceptsSigned(c: char)
    requires IsDigit(c)
    ensures AtoiOk(WithoutSlash(['/', '+', c])) && !IsNumber(['/', '+', c])
  {
    var s := ['/', '+', c];
    assert NextSlash(s, 0) == 0 && NextSlash(s, 1) == 3;
    assert WithoutSlash(s) == ['+', c];
    assert Unsigned(['+', c]) == [c];
    assert [c][..0] == [] && Decimal([c]) == DigitValue(c);
    assert !IsDigit(s[1]);
  }

  lemma VisitLeaf(s: string)
    ensures Visit(Fresh(s), [s]) == Tree(s, [[s]], [])
  {
    var p: Path := [s];
    assert p[1..] == [];
    assert InsertBelow([], p[1..]) == [];
    var none: seq<Path> := [];
    assert none + [p] == [[s]];
  }

  lemma VisitNewLeaf(t: Tree, a: string, s: string)
    requires Find(t.kids, s) == |t.kids|
    ensures Visit(t, [a, s]) == Tree(t.path, t.seen + [[a, s]], t.kids + [Tree(s, [[s]], [])])
  {
    var p: Path := [a, s];
    var r: Path := p[1..];
    assert r == [s];
    VisitLeaf(s);
    assert InsertBelow(t.kids, r) == t.kids + [Visit(Fresh(s), r)];
  }

  /** One more path below the root "/a" whose last segment no child accepts. */
  lemma GrowForest(ps: seq<Path>, kids: seq<Tree>, s: string)
    requires ps != [] && Find(kids, s) == |kids|
    requires forall i :: 0 <= i < |ps| ==> ps[i] != []
    requires InsertAll(map[], ps) == map["/a" := Tree("/a", ps, kids)]
    ensures InsertAll(map[], ps + [["/a", s]]) == map["/a" := Tree("/a", ps + [["/a", s]], kids + [Leaf(s)])]
  {
    var p: Path := ["/a", s];
    assert (ps + [p])[..|ps|] == ps;
    VisitNewLeaf(Tree("/a", ps, kids), "/a", s);
  }

  lemma FirstSigned()
    ensures InsertAll(map[], SignedPaths()[..1]) == map["/a" := Tree("/a", SignedPaths()[..1], SignedKids()[..1])]
  {
    var ps: seq<Path>, none: seq<Path>, childless: seq<Tree> := [["/a", "/+1"]], [], [];
    assert ps == SignedPaths()[..1] && ps[..0] == [];
    VisitNewLeaf(Fresh("/a"), "/a", "/+1");
    assert none + ps == ps && childless + [Leaf("/+1")] == SignedKids()[..1];
  }

  lemma SignedForest()
    ensures InsertAll(map[], SignedPaths()) == map["/a" := Tree("/a", SignedPaths(), SignedKids())]
  {
    var ps, kids := SignedPaths(), SignedKids();
    FirstSigned();
    assert ps[..2] == ps[..1] + [ps[1]] && kids[..2] == kids[..1] + [kids[1]];
    assert ps[..3] == ps[..2] + [ps[2]] && kids[..3] == kids[..2] + [kids[2]];
    assert ps == ps[..3] + [ps[3]] && kids == kids[..3] + [kids[3]];
    DistinctSigned();
    GrowForest(ps[..1], kids[..1], "/+2");
    GrowForest(ps[..2], kids[..2], "/+3");
    GrowForest(ps[..3], kids[..3], "/+4");
  }

  lemma DistinctSigned()
    ensures Find(SignedKids()[..1], "/+2") == 1
    ensures Find(SignedKids()[..2], "/+3") == 2
    ensures Find(SignedKids()[..3], "/+4") == 3
  {
    assert "/+1"[2] == '1' && "/+2"[2] == '2' && "/+3"[2] == '3' && "/+4"[2] == '4';
  }

  lemma LeafIsStable(s: string)
    ensures Aggregates(Leaf(s), Leaf(s), 3)
  {
    var none: seq<Tree> := [];
    assert Leaf(s).kids == none;
    assert CollapseStep(Leaf(s).(kids := none), Leaf(s), 3);
  }

  /** What aggregation makes of them. */
  function SignedResult(): Tree {
    Tree("/a", SignedPaths(), [Tree(WILD_PATH_DIGIT, [["/+1"], ["/+2"], ["/+3"], ["/+4"]], [])])
  }

  lemma SignedPools()
    ensures Arrivals(SignedKids()) == [["/+1"], ["/+2"], ["/+3"], ["/+4"]]
    ensures GrandKids(SignedKids()) == []
  {
    var kids := SignedKids();
    assert kids[1..] == [kids[1], kids[2], kids[3]];
    assert kids[1..][1..] == [kids[2], kids[3]];
    assert kids[1..][1..][1..] == [kids[3]];
    assert kids[1..][1..][1..][1..] == [];
  }

  lemma SignedDigits()
    ensures DigitsOnly(SignedKids())
  {
    AtoiAcceptsSigned('1');
    AtoiAcceptsSigned('2');
    AtoiAcceptsSigned('3');
    AtoiAcceptsSigned('4');
    hide AtoiOk, WithoutSlash;
    assert "/+1" == ['/', '+', '1'] && "/+2" == ['/', '+', '2'];
    assert "/+3" == ['/', '+', '3'] && "/+4" == ['/', '+', '4'];
  }

  lemma SignedWild()
    ensures WildChild(SignedKids()) == SignedResult().kids[0]
  {
    hide DigitsOnly, AtoiOk, Arrivals, GrandKids;
    SignedPools();
    SignedDigits();
  }

  lemma SignedCollapse()
    ensures Aggregates(Tree("/a", SignedPaths(), SignedKids()), SignedResult(), 3)
  {
    SignedStep();
    SignedLeaves();
    hide SignedPaths, SignedKids, SignedResult, CollapseStep;
    var t, kids := Tree("/a", SignedPaths(), SignedKids()), SignedKids();
    assert t == t.(kids := kids);
  }

  lemma SignedLeaves()
    ensures forall i :: 0 <= i < |SignedKids()| ==> Aggregates(SignedKids()[i], SignedKids()[i], 3)
  {
    hide Aggregates;
    forall i | 0 <= i < |SignedKids()| ensures Aggregates(SignedKids()[i], SignedKids()[i], 3) {
      LeafIsStable(SignedKids()[i].path);
    }
  }

  lemma SignedStep()
    ensures CollapseStep(Tree("/a", SignedPaths(), SignedKids()), SignedResult(), 3)
  {
    SignedWild();
    assert SameLength(SignedKids());
  }

  lemma SignedResultPatterns(q: Pattern, p: Path)
    requires p in SignedPaths() && IsPattern(SignedResult(), q)
    ensures !Matches(q, p)
  {
    assert |p| == 2 && p[1][1] == '+' && !IsDigit(p[1][1]) && !IsNumber(p[1]);
    if |q.segs| == 2 {
      assert IsKidPattern(SignedResult().kids, Rest(q));
      assert q.segs[1] == Rest(q).segs[0] == Number;
    }
  }

  /** Four signed numbers under one segment: at the default threshold they become the digit
      wildcard, and no printed pattern matches any of them. */
  lemma SignedNumbersAreLost() returns (f: Forest, f': Forest)
    ensures f == InsertAll(map[], SignedPaths()) && AggregatesAll(f, f', 3)
    ensures forall q, p :: p in SignedPaths() && PrintsPattern(f', q) ==> !Matches(q, p)
  {
    hide Aggregates, IsPattern, Matches, InsertAll;
    f, f' := InsertAll(map[], SignedPaths()), map["/a" := SignedResult()];
    SignedForest();
    SignedCollapse();
    forall q, p | p in SignedPaths() && PrintsPattern(f', q) ensures !Matches(q, p) {
      SignedResultPatterns(q, p);
    }
  }

  // ================================================================ a literal digit wildcard is not covered

  /** A segment spelled like the digit wildcard is taken for one: the pattern printed for its path does not
      match the path. */
  lemma LiteralDigitsAreLost(threshold: nat) returns (f: Forest, f': Forest, p: Path)
    requires threshold >= 1
    ensures p == ["/a", WILD_PATH_DIGIT] && f == InsertAll(map[], [p]) && AggregatesAll(f, f', threshold)
    ensures forall q :: PrintsPattern(f', q) ==> !Matches(q, p)
  {
    p := ["/a", WILD_PATH_DIGIT];
    var none: seq<Path>, childless: seq<Tree> := [], [];
    assert [p][..0] == none;
    VisitNewLeaf(Fresh("/a"), "/a", WILD_PATH_DIGIT);
    assert none + [p] == [p] && childless + [Leaf(WILD_PATH_DIGIT)] == [Leaf(WILD_PATH_DIGIT)];
    var t := Tree("/a", [p], [Leaf(WILD_PATH_DIGIT)]);
    var ps := [p];
    assert ps[..|ps| - 1] == none && Visit(Fresh("/a"), p) == t;
    f := InsertAll(map[], ps);
    f' := f;
    assert InsertAll(map[], none) == map[];
    assert f == map["/a" := t];
    FewKidsAreStable(t, threshold);
    forall q | PrintsPattern(f', q) ensures !Matches(q, p) { DigitPattern(t, q); }
  }

  lemma FewKidsAreStable(t: Tree, threshold: nat)
    requires t.kids == [Leaf(WILD_PATH_DIGIT)] && threshold >= 1
    ensures Aggregates(t, t, threshold)
  {
    var none: seq<Tree> := [];
    var k := Leaf(WILD_PATH_DIGIT);
    assert CollapseStep(k.(kids := none), k, threshold);
    assert Aggregates(k, k, threshold);
    assert CollapseStep(t.(kids := [k]), t, threshold);
  }

  lemma DigitPattern(t: Tree, q: Pattern)
    requires t.kids == [Leaf(WILD_PATH_DIGIT)] && IsPattern(t, q)
    ensures !Matches(q, ["/a", WILD_PATH_DIGIT])
  {
    if |q.segs| == 2 {
      assert IsKidPattern(t.kids, Rest(q));
      assert q.segs[1] == Rest(q).segs[0] == Number;
      assert !IsDigit(WILD_PATH_DIGIT[1]) && !IsNumber(WILD_PATH_DIGIT);
    }
  }
}
