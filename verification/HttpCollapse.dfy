/** When siblings of the HTTP trie become a wildcard, when they stay, and what is then printed. */
module HttpCollapse {
  import opened Paths
  import opened HttpTrie
  import opened HttpForest

  // ================================================================ one node

  lemma AggregatedRoot(t: Tree, t': Tree, threshold: nat)
    requires Aggregates(t, t', threshold)
    ensures t'.path == t.path && t'.seen == t.seen
  {
    var mids: seq<Tree> :|
      && |mids| == |t.kids|
      && (forall i :: 0 <= i < |mids| ==> Aggregates(t.kids[i], mids[i], threshold))
      && CollapseStep(t.(kids := mids), t', threshold);
  }

  /** The children after their own aggregation: as many, with the same texts and arrivals. */
  lemma AggregatedKids(t: Tree, t': Tree, threshold: nat) returns (mids: seq<Tree>)
    requires Aggregates(t, t', threshold)
    ensures |mids| == |t.kids| && CollapseStep(t.(kids := mids), t', threshold)
    ensures forall i :: 0 <= i < |mids| ==>
      Aggregates(t.kids[i], mids[i], threshold) && mids[i].path == t.kids[i].path && mids[i].seen == t.kids[i].seen
  {
    mids :|
      && |mids| == |t.kids|
      && (forall i :: 0 <= i < |mids| ==> Aggregates(t.kids[i], mids[i], threshold))
      && CollapseStep(t.(kids := mids), t', threshold);
    hide CollapseStep;
    forall i | 0 <= i < |mids| ensures mids[i].path == t.kids[i].path && mids[i].seen == t.kids[i].seen {
      AggregatedRoot(t.kids[i], mids[i], threshold);
    }
  }

  /** Children of different length, or not more than the threshold, stay: none is added, dropped or renamed,
      and each is aggregated by itself. */
  lemma SiblingsStay(t: Tree, t': Tree, threshold: nat)
    requires Aggregates(t, t', threshold) && (|t.kids| <= threshold || Uneven(t.kids))
    ensures |t'.kids| == |t.kids|
    ensures forall i :: 0 <= i < |t.kids| ==>
      && Aggregates(t.kids[i], t'.kids[i], threshold)
      && t'.kids[i].path == t.kids[i].path && t'.kids[i].seen == t.kids[i].seen
  {
    var mids := AggregatedKids(t, t', threshold);
    hide Aggregates, MergesSame, WildChild;
    if Uneven(t.kids) { UnevenSame(t.kids, mids); }
  }

  lemma UnevenSame(kids: seq<Tree>, mids: seq<Tree>)
    requires Uneven(kids) && |mids| == |kids| && forall i :: 0 <= i < |kids| ==> mids[i].path == kids[i].path
    ensures !SameLength(mids)
  {
    var i, j :| 0 <= i < |kids| && 0 <= j < |kids| && |kids[i].path| != |kids[j].path|;
    assert |mids[i].path| != |mids[j].path|;
  }

  /** A slash and up to eighteen digits. */
  predicate ShortNumber(path: string) {
    2 <= |path| <= 19 && path[0] == '/' && forall k :: 1 <= k < |path| ==> '0' <= path[k] <= '9'
  }

  /** A segment with a character that no number has in its place. */
  predicate NotNumeric(path: string) {
    && |path| >= 2 && path[0] == '/' && (forall k :: 1 <= k < |path| ==> path[k] != '/')
    && ((!('0' <= path[1] <= '9') && path[1] != '+' && path[1] != '-')
        || exists k :: 2 <= k < |path| && !('0' <= path[k] <= '9'))
  }

  function Power(n: nat): nat {
    if n == 0 then 1 else 10 * Power(n - 1)
  }

  lemma {:induction false} DecimalBound(s: string)
    requires AllDigits(s)
    ensures Decimal(s) < Power(|s|)
  {
    if s != [] { DecimalBound(s[..|s| - 1]); }
  }

  lemma {:induction false} PowerGrows(m: nat, n: nat)
    requires m <= n
    ensures Power(m) <= Power(n)
  {
    if m < n { PowerGrows(m, n - 1); }
  }

  lemma Eighteen()
    ensures Power(18) == 1_000_000_000_000_000_000
  {
    assert Power(6) == 1_000_000;
    assert Power(12) == 1_000_000_000_000;
  }

  lemma OneSegmentText(path: string)
    requires |path| >= 2 && path[0] == '/' && forall k :: 1 <= k < |path| ==> path[k] != '/'
    ensures WithoutSlash(path) == path[1..]
  {
    assert NextSlash(path, 0) == 0 && NextSlash(path, 1) == |path|;
  }

  lemma ShortNumberIsAtoi(path: string)
    requires ShortNumber(path)
    ensures AtoiOk(WithoutSlash(path))
  {
    OneSegmentText(path);
    var s := path[1..];
    assert Unsigned(s) == s && AllDigits(s);
    DecimalBound(s);
    PowerGrows(|s|, 18);
    Eighteen();
  }

  lemma NotNumericIsNotAtoi(path: string)
    requires NotNumeric(path)
    ensures !AtoiOk(WithoutSlash(path))
  {
    OneSegmentText(path);
    var s, u := path[1..], Unsigned(path[1..]);
    assert s[0] == path[1] && forall k :: 1 <= k < |s| ==> s[k] == path[k + 1];
    if k :| 2 <= k < |path| && !('0' <= path[k] <= '9') {
      var m := if u == s then k - 1 else k - 2;
      assert u[m] == path[k];
    } else {
      assert u == s && u[0] == path[1];
    }
  }

  /** More children than the threshold, all of one length, become one: the digit wildcard if all are short
      numbers, the other wildcard if one cannot be a number. It has all their arrivals; its children have
      different texts, those of the grandchildren. */
  lemma SiblingsCollapse(t: Tree, t': Tree, threshold: nat)
    requires Aggregates(t, t', threshold) && |t.kids| > threshold && !Uneven(t.kids)
    ensures |t'.kids| == 1 && t'.kids[0].path in {"/[0-9]+", "/.+"} && t'.kids[0].seen == Arrivals(t.kids)
    ensures (forall i :: 0 <= i < |t.kids| ==> ShortNumber(t.kids[i].path)) ==> t'.kids[0].path == "/[0-9]+"
    ensures (exists i :: 0 <= i < |t.kids| && NotNumeric(t.kids[i].path)) ==> t'.kids[0].path == "/.+"
    ensures DistinctPaths(t'.kids[0].kids)
  {
    var mids := AggregatedKids(t, t', threshold);
    ArrivalsSame(mids, t.kids);
    assert SameLength(mids) by {
      forall i, j | 0 <= i < j < |mids| ensures |mids[i].path| == |mids[j].path| {
        assert |t.kids[i].path| == |t.kids[j].path|;
      }
    }
    WildText(mids);
    hide WildChild, DigitsOnly, SameLength;
    if i :| 0 <= i < |t.kids| && NotNumeric(t.kids[i].path) { assert NotNumeric(mids[i].path); }
  }

  lemma WildText(kids: seq<Tree>)
    ensures WildChild(kids).path in {"/[0-9]+", "/.+"} && WildChild(kids).seen == Arrivals(kids)
    ensures (forall i :: 0 <= i < |kids| ==> ShortNumber(kids[i].path)) ==> WildChild(kids).path == "/[0-9]+"
    ensures (exists i :: 0 <= i < |kids| && NotNumeric(kids[i].path)) ==> WildChild(kids).path == "/.+"
  {
    hide AtoiOk, WithoutSlash;
    if forall i :: 0 <= i < |kids| ==> ShortNumber(kids[i].path) {
      forall i | 0 <= i < |kids| ensures AtoiOk(WithoutSlash(kids[i].path)) { ShortNumberIsAtoi(kids[i].path); }
    }
    if i :| 0 <= i < |kids| && NotNumeric(kids[i].path) { NotNumericIsNotAtoi(kids[i].path); }
  }

  // ================================================================ a first batch of siblings

  /** Paths of two segments below one root, neither spelled like a wildcard. */
  ghost predicate SiblingPaths(ps: seq<Path>, a: string) {
    && ps != [] && !IsWild(a)
    && forall i :: 0 <= i < |ps| ==> |ps[i]| == 2 && ps[i][0] == a && !IsWild(ps[i][1])
  }

  ghost function Seconds(ps: seq<Path>): set<string>
    requires forall i :: 0 <= i < |ps| ==> |ps[i]| == 2
  {
    set i | 0 <= i < |ps| :: ps[i][1]
  }

  /** A root with leaves for exactly these texts. */
  ghost predicate Flat(t: Tree, a: string, names: set<string>) {
    && t.path == a && DistinctPaths(t.kids) && PathsOf(t.kids) == names
    && forall i :: 0 <= i < |t.kids| ==> t.kids[i].kids == [] && !IsWild(t.kids[i].path)
  }

  lemma FlatGrows(t: Tree, a: string, names: set<string>, p: Path)
    requires Flat(t, a, names) && |p| == 2 && p[0] == a && !IsWild(p[1])
    ensures Flat(Visit(t, p), a, names + {p[1]})
  {
    var s, r, i := p[1], p[1..], Find(t.kids, p[1]);
    assert r == [s] && r[1..] == [];
    var kids' := Visit(t, p).kids;
    assert kids' == InsertBelow(t.kids, r);
    LeafVisited(if i == |t.kids| then Fresh(s) else t.kids[i], r);
    if i == |t.kids| {
      assert kids' == t.kids + [Visit(Fresh(s), r)];
      assert s !in PathsOf(t.kids);
      AddedPath(t.kids, Visit(Fresh(s), r));
    } else {
      assert t.kids[i].path == s && kids' == t.kids[i := Visit(t.kids[i], r)];
      assert t.kids[i] in t.kids;
      ReplacedPath(t.kids, i, Visit(t.kids[i], r));
    }
  }

  lemma LeafVisited(k: Tree, r: Path)
    requires |r| == 1
    ensures Visit(k, r).kids == k.kids && Visit(k, r).path == k.path
  {
    assert r[1..] == [];
  }

  lemma AddedPath(kids: seq<Tree>, k: Tree)
    requires DistinctPaths(kids) && k.path !in PathsOf(kids)
    ensures DistinctPaths(kids + [k]) && PathsOf(kids + [k]) == PathsOf(kids) + {k.path}
  {
    forall i | 0 <= i < |kids| ensures kids[i].path != k.path { assert kids[i] in kids; }
  }

  lemma ReplacedPath(kids: seq<Tree>, i: nat, k: Tree)
    requires DistinctPaths(kids) && i < |kids| && k.path == kids[i].path
    ensures DistinctPaths(kids[i := k]) && PathsOf(kids[i := k]) == PathsOf(kids)
  {
    var kids' := kids[i := k];
    forall x ensures x in PathsOf(kids') <==> x in PathsOf(kids) {
      if x in PathsOf(kids) {
        var j :| 0 <= j < |kids| && kids[j].path == x;
        assert kids'[j].path == x && kids'[j] in kids';
      }
      if x in PathsOf(kids') {
        var j :| 0 <= j < |kids'| && kids'[j].path == x;
        assert kids[j].path == x && kids[j] in kids;
      }
    }
  }

  lemma {:induction false} FlatForest(ps: seq<Path>, a: string)
    requires SiblingPaths(ps, a)
    ensures NoneEmpty(ps) && InsertAll(map[], ps).Keys == {a} && Flat(InsertAll(map[], ps)[a], a, Seconds(ps))
    decreases |ps|
  {
    var init, p := ps[..|ps| - 1], ps[|ps| - 1];
    assert Seconds(ps) == Seconds(init) + {p[1]} by {
      forall x | x in Seconds(ps) ensures x in Seconds(init) + {p[1]} {
        var i :| 0 <= i < |ps| && ps[i][1] == x;
        if i < |init| { assert init[i][1] == x; }
      }
      forall x | x in Seconds(init) ensures x in Seconds(ps) {
        var i :| 0 <= i < |init| && init[i][1] == x;
        assert ps[i][1] == x;
      }
    }
    if init == [] {
      assert PathsOf([]) == {} && Seconds(init) == {};
      FlatGrows(Fresh(a), a, {}, p);
    } else {
      FlatForest(init, a);
      FlatGrows(InsertAll(map[], init)[a], a, Seconds(init), p);
    }
  }

  lemma {:induction false} CountDistinct(kids: seq<Tree>)
    requires DistinctPaths(kids)
    ensures |PathsOf(kids)| == |kids|
    decreases |kids|
  {
    if kids != [] {
      var init, k := kids[..|kids| - 1], kids[|kids| - 1];
      CountDistinct(init);
      assert kids == init + [k];
      assert k.path !in PathsOf(init);
      assert PathsOf(kids) == PathsOf(init) + {k.path};
    } else {
      assert PathsOf(kids) == {};
    }
  }

  /** A batch of siblings with these names. */
  ghost predicate FlatBatch(batch: seq<string>, a: string, names: set<string>) {
    Usable(batch) && SiblingPaths(Inserted(batch), a) && Seconds(Inserted(batch)) == names
  }

  ghost predicate UnevenNames(names: set<string>) {
    exists s, r :: s in names && r in names && |s| != |r|
  }

  /** A first batch of siblings of which two have different length, or not more than the threshold, is printed
      as it is. */
  lemma SiblingBatchIsKept(batch: seq<string>, a: string, names: set<string>, f': Forest, threshold: nat, x: string)
    requires Round(map[], batch, f', threshold) && FlatBatch(batch, a, names)
    requires |names| <= threshold || UnevenNames(names)
    ensures x in PrintedForest(f') <==> exists p :: p in Inserted(batch) && p != [] && Concat(p) == x
  {
    var ps := Inserted(batch);
    FlatForest(ps, a);
    var f := InsertAll(map[], ps);
    assert !IsWild(a);
    hide *;
    var t := FlatRound(batch, a, names, f', threshold);
    FlatIsPlain(t, a, names, threshold);
    OnePlainRoot(batch, a, f, f', threshold, x);
  }

  lemma OnePlainRoot(batch: seq<string>, a: string, f: Forest, f': Forest, threshold: nat, x: string)
    requires Round(map[], batch, f', threshold) && f == InsertAll(map[], Inserted(batch))
    requires f.Keys == {a} && a in f && Plain(f[a], threshold)
    ensures x in PrintedForest(f') <==> exists p :: p in Inserted(batch) && p != [] && Concat(p) == x
  {
    FirstAccounts(Inserted(batch));
    RoundAggregates(batch, f', threshold);
    var ps := Inserted(batch);
    hide *;
    forall r | r in f ensures Plain(f[r], threshold) { assert r == a; }
    PlainForestPrintsItsPaths(f, ps, f', threshold);
  }

  lemma FirstAccounts(ps: seq<Path>)
    requires NoneEmpty(ps)
    ensures Accounts(InsertAll(map[], ps), ps)
  {
    assert Accounts(map[], []);
    InsertAllAccounts(map[], [], ps);
    assert [] + ps == ps;
  }

  /** The same in any round, first or later, at the root of any tree: siblings of different length, or not more
      than the threshold, stay; the others become one wildcard. */
  lemma RoundOnSiblings(fs: seq<Forest>, batches: seq<seq<string>>, ths: seq<nat>, k: nat, r: string)
    requires Rounds(fs, batches, ths) && k < |batches| && r in fs[k + 1]
    ensures NoneEmpty(Inserted(batches[k])) && r in InsertAll(fs[k], Inserted(batches[k]))
    ensures var kids, kids' := InsertAll(fs[k], Inserted(batches[k]))[r].kids, fs[k + 1][r].kids;
      if |kids| <= ths[k] || Uneven(kids) then
        |kids'| == |kids| && forall i :: 0 <= i < |kids| ==>
          Aggregates(kids[i], kids'[i], ths[k]) && kids'[i].path == kids[i].path
      else |kids'| == 1 && kids'[0].path in {"/[0-9]+", "/.+"}
  {
    assert Round(fs[k], batches[k], fs[k + 1], ths[k]);
    var t, t' := InsertAll(fs[k], Inserted(batches[k]))[r], fs[k + 1][r];
    hide Round, Rounds, Aggregates, InsertAll, Inserted;
    if |t.kids| <= ths[k] || Uneven(t.kids) {
      SiblingsStay(t, t', ths[k]);
    } else {
      SiblingsCollapse(t, t', ths[k]);
    }
  }

  lemma RoundAggregates(batch: seq<string>, f': Forest, threshold: nat)
    requires Round(map[], batch, f', threshold)
    ensures AggregatesAll(InsertAll(map[], Inserted(batch)), f', threshold)
  {
  }

  lemma FlatIsPlain(t: Tree, a: string, names: set<string>, threshold: nat)
    requires Flat(t, a, names) && !IsWild(a) && |t.kids| == |names|
    requires |names| <= threshold || UnevenNames(names)
    ensures Plain(t, threshold)
  {
    if UnevenNames(names) {
      var s, r :| s in names && r in names && |s| != |r|;
      var i := KidNamed(t, a, names, s);
      var j := KidNamed(t, a, names, r);
      assert |t.kids[i].path| != |t.kids[j].path|;
    }
  }

  lemma KidNamed(t: Tree, a: string, names: set<string>, s: string) returns (i: nat)
    requires Flat(t, a, names) && s in names
    ensures i < |t.kids| && t.kids[i].path == s
  {
    var k :| k in t.kids && k.path == s;
    i :| 0 <= i < |t.kids| && t.kids[i] == k;
  }

  /** What a wildcard leaf is spelled like: for digits if all names are short numbers, for anything if one
      cannot be a number. */
  ghost predicate WildLeaf(names: set<string>, wild: string) {
    || (wild == "/[0-9^/]+" && forall s :: s in names ==> ShortNumber(s))
    || (wild == "/.[^/]+" && exists s :: s in names && NotNumeric(s))
  }

  /** A first batch of more siblings than the threshold, all of one length, prints one text: the root with a
      wildcard leaf. */
  lemma SiblingBatchCollapses(batch: seq<string>, a: string, names: set<string>, f': Forest, threshold: nat,
                              wild: string)
    requires Round(map[], batch, f', threshold) && FlatBatch(batch, a, names)
    requires |names| > threshold && !UnevenNames(names) && WildLeaf(names, wild)
    ensures PrintedForest(f') == {a + wild}
  {
    hide *;
    var t := FlatRound(batch, a, names, f', threshold);
    FlatCollapses(t, f'[a], a, names, threshold, wild);
    OneRootPrints(f', a);
  }

  lemma OneRootPrints(f: Forest, a: string)
    requires f.Keys == {a}
    ensures PrintedForest(f) == Printed(f[a], "")
  {
    assert a in f;
  }

  /** The tree of a first batch of siblings and what the round makes of it. */
  lemma FlatRound(batch: seq<string>, a: string, names: set<string>, f': Forest, threshold: nat) returns (t: Tree)
    requires Round(map[], batch, f', threshold) && FlatBatch(batch, a, names)
    ensures Flat(t, a, names) && |t.kids| == |names| && NoneEmpty(Inserted(batch))
    ensures f'.Keys == {a} && Aggregates(t, f'[a], threshold) && t == InsertAll(map[], Inserted(batch))[a]
    ensures WF(t, false) && forall p :: p in t.seen ==> |p| == 2
  {
    var ps := Inserted(batch);
    FlatForest(ps, a);
    t := InsertAll(map[], ps)[a];
    CountDistinct(t.kids);
    RoundAggregates(batch, f', threshold);
    hide InsertAll, Inserted, Round;
    FirstAccounts(ps);
    assert t.seen == WithHead(ps, a);
    forall p | p in t.seen ensures |p| == 2 { WithHeadMembers(ps, a, p); }
  }

  lemma FlatCollapses(t: Tree, t': Tree, a: string, names: set<string>, threshold: nat, wild: string)
    requires WF(t, false) && Flat(t, a, names) && Aggregates(t, t', threshold) && |t.kids| > threshold
    requires !UnevenNames(names) && WildLeaf(names, wild)
    requires forall p :: p in t.seen ==> |p| == 2
    ensures Printed(t', "") == {a + wild}
  {
    KidNames(t, a, names, wild);
    hide Flat, Uneven, UnevenNames, ShortNumber, NotNumeric, WildLeaf, Printed, WF, Aggregates;
    SiblingsCollapse(t, t', threshold);
    AggregatedRoot(t, t', threshold);
    AggregateKeepsWF(t, t', threshold);
    OneLeaf(t', a, wild);
  }

  lemma KidNames(t: Tree, a: string, names: set<string>, wild: string)
    requires Flat(t, a, names) && !UnevenNames(names) && WildLeaf(names, wild)
    ensures t.path == a && !Uneven(t.kids)
    ensures || (wild == "/[0-9^/]+" && forall i :: 0 <= i < |t.kids| ==> ShortNumber(t.kids[i].path))
            || (wild == "/.[^/]+" && exists i :: 0 <= i < |t.kids| && NotNumeric(t.kids[i].path))
  {
    hide ShortNumber, NotNumeric;
    forall i | 0 <= i < |t.kids| ensures t.kids[i].path in names { assert t.kids[i] in t.kids; }
    if s :| s in names && NotNumeric(s) {
      var i := KidNamed(t, a, names, s);
      assert NotNumeric(t.kids[i].path);
    }
  }

  lemma {:induction false} NoTails(ps: seq<Path>)
    requires forall i :: 0 <= i < |ps| ==> |ps[i]| == 1
    ensures Tails(ps) == []
  {
    if ps != [] { NoTails(ps[1..]); }
  }

  lemma {:induction false} EqualTails(ps: seq<Path>)
    requires forall i :: 0 <= i < |ps| ==> |ps[i]| == 2
    ensures forall r :: r in Tails(ps) ==> |r| == 1
    ensures |Tails(ps)| == |ps|
  {
    if ps != [] { EqualTails(ps[1..]); }
  }

  /** The one child of a root whose paths all have two segments is a leaf, and the root is no pattern. */
  lemma OneChildIsLeaf(t: Tree)
    requires WF(t, false) && |t.kids| == 1 && forall p :: p in t.seen ==> |p| == 2
    ensures t.kids[0].kids == [] && !EndsHere(t) && |Arrivals(t.kids)| > 0
  {
    var k := t.kids[0];
    assert WF(k, false);
    NotEnding(t);
    KidArrivalsAreSingle(t);
    NoTails(k.seen);
    NoMembers(k.seen, k.kids);
    hide *;
    KidsOfNone(k);
  }

  lemma NotEnding(t: Tree)
    requires WF(t, false) && forall p :: p in t.seen ==> |p| == 2
    ensures !EndsHere(t) && |Arrivals(t.kids)| > 0
  {
    assert forall i :: 0 <= i < |t.seen| ==> t.seen[i] in t.seen;
    EqualTails(t.seen);
    assert !SomeEnds(t.seen);
    hide WF, Tails;
    assert AllWF(t.kids, false) && Balanced(t, false) by { WFParts(t); }
    EndsHereMeans(t, false);
    SameMultisetMembers(Tails(t.seen), Arrivals(t.kids), []);
  }

  lemma WFParts(t: Tree)
    requires WF(t, false)
    ensures Balanced(t, false) && AllWF(t.kids, false)
  {
  }

  lemma KidArrivalsAreSingle(t: Tree)
    requires Balanced(t, false) && |t.kids| == 1 && forall p :: p in t.seen ==> |p| == 2
    ensures forall i :: 0 <= i < |t.kids[0].seen| ==> |t.kids[0].seen[i]| == 1
  {
    forall r | r in t.kids[0].seen ensures |r| == 1 { KidArrival(t, r, false); }
    assert forall i :: 0 <= i < |t.kids[0].seen| ==> t.kids[0].seen[i] in t.kids[0].seen;
  }

  lemma NoMembers(seen: seq<Path>, kids: seq<Tree>)
    requires Tails(seen) == [] && multiset(Tails(seen)) == multiset(Arrivals(kids))
    ensures |Arrivals(kids)| == 0
  {
    assert |multiset(Arrivals(kids))| == |Arrivals(kids)|;
  }

  lemma KidsOfNone(k: Tree)
    requires WF(k, false) && |Arrivals(k.kids)| == 0
    ensures k.kids == []
  {
    EndsHereMeans(k, false);
  }

  /** It prints the text of that child as a leaf. */
  lemma OneLeaf(t: Tree, a: string, wild: string)
    requires WF(t, false) && t.path == a && |t.kids| == 1 && forall p :: p in t.seen ==> |p| == 2
    requires if wild == "/[0-9^/]+" then t.kids[0].path == "/[0-9]+" else wild == "/.[^/]+" && t.kids[0].path == "/.+"
    ensures Printed(t, "") == {a + wild}
  {
    OneChildIsLeaf(t);
    hide WF, Tails;
    var k := t.kids[0];
    assert t.kids == [k] && t.kids[1..] == [];
    assert "" + a == a;
    assert Printed(k, a) == {a + wild};
    assert PrintedKids(t.kids, a) == Printed(k, a) + {};
  }

  // ================================================================ six siblings

  lemma TwoTokens(s: string, a: string, b: string)
    requires s == a + b && IsToken(a) && IsToken(b)
    ensures Tokenize(s) == [a, b] && s != "/"
  {
    assert [a, b][1..] == [b] && [b][1..] == [];
    assert Concat([b]) == b + "" == b;
    TokenizeConcat([a, b]);
  }

  /** The texts of names below a root. */
  ghost predicate TextsBelow(batch: seq<string>, a: string, names: seq<string>) {
    && |batch| == |names| > 0 && IsToken(a) && !IsWild(a)
    && forall i :: 0 <= i < |names| ==> IsToken(names[i]) && !IsWild(names[i]) && batch[i] == a + names[i]
  }

  ghost function NameSet(names: seq<string>): set<string> {
    set s | s in names
  }

  lemma InsertedBelow(batch: seq<string>, a: string, names: seq<string>)
    requires TextsBelow(batch, a, names)
    ensures Usable(batch)
    ensures forall p :: p in Inserted(batch) <==> exists i :: 0 <= i < |names| && p == [a, names[i]]
  {
    forall i | 0 <= i < |batch| ensures Tokenize(batch[i]) == [a, names[i]] && batch[i] != "/" {
      TwoTokens(batch[i], a, names[i]);
    }
    hide Tokenize;
    forall p ensures p in Inserted(batch) <==> exists i :: 0 <= i < |names| && p == [a, names[i]] {
      InsertedMembers(batch, p);
      if s :| s in batch && HasTokens(s, p) {
        var i :| 0 <= i < |batch| && batch[i] == s;
        assert p == [a, names[i]];
      }
      if i :| 0 <= i < |names| && p == [a, names[i]] { assert batch[i] in batch && HasTokens(batch[i], p); }
    }
  }

  lemma SiblingsBelow(batch: seq<string>, a: string, names: seq<string>)
    requires TextsBelow(batch, a, names)
    ensures FlatBatch(batch, a, NameSet(names))
    ensures forall x :: x in batch <==> exists p :: p in Inserted(batch) && p != [] && Concat(p) == x
  {
    InsertedBelow(batch, a, names);
    var ps := Inserted(batch);
    hide Inserted;
    assert [a, names[0]] in ps;
    assert forall i :: 0 <= i < |ps| ==> ps[i] in ps;
    SecondsBelow(ps, a, names);
    forall x ensures x in batch <==> exists p :: p in ps && p != [] && Concat(p) == x {
      TextBelow(batch, a, names, ps, x);
    }
  }

  lemma SecondsBelow(ps: seq<Path>, a: string, names: seq<string>)
    requires forall i :: 0 <= i < |ps| ==> |ps[i]| == 2
    requires forall p :: p in ps <==> exists i :: 0 <= i < |names| && p == [a, names[i]]
    ensures Seconds(ps) == NameSet(names)
  {
    forall x ensures x in Seconds(ps) <==> x in names {
      if k :| 0 <= k < |ps| && ps[k][1] == x { assert ps[k] in ps; }
      if i :| 0 <= i < |names| && names[i] == x {
        var p := [a, x];
        assert p in ps;
        var k :| 0 <= k < |ps| && ps[k] == p;
        assert ps[k][1] == x;
      }
    }
  }

  lemma TextBelow(batch: seq<string>, a: string, names: seq<string>, ps: seq<Path>, x: string)
    requires TextsBelow(batch, a, names)
    requires forall p :: p in ps <==> exists i :: 0 <= i < |names| && p == [a, names[i]]
    ensures x in batch <==> exists p :: p in ps && p != [] && Concat(p) == x
  {
    forall s ensures Concat([a, s]) == a + s {
      assert [a, s][1..] == [s] && [s][1..] == [];
      assert Concat([s]) == s + "" == s;
    }
    hide Concat;
    if i :| 0 <= i < |batch| && batch[i] == x { assert [a, names[i]] in ps; }
    if p :| p in ps && p != [] && Concat(p) == x {
      var i :| 0 <= i < |names| && p == [a, names[i]];
      assert batch[i] == x && batch[i] in batch;
    }
  }

  /** Names below one root of which two have different length stay. */
  lemma TextsStay(batch: seq<string>, a: string, names: seq<string>, f': Forest, threshold: nat, x: string)
    requires TextsBelow(batch, a, names) && Round(map[], batch, f', threshold)
    requires exists s, r :: s in names && r in names && |s| != |r|
    ensures x in PrintedForest(f') <==> x in batch
  {
    SiblingsBelow(batch, a, names);
    assert UnevenNames(NameSet(names)) by {
      var s, r :| s in names && r in names && |s| != |r|;
      assert s in NameSet(names) && r in NameSet(names);
    }
    hide *;
    SiblingBatchIsKept(batch, a, NameSet(names), f', threshold, x);
  }

  /** More names of one length than the threshold, of which one cannot be a number, become one pattern. */
  lemma TextsCollapse(batch: seq<string>, a: string, names: seq<string>, f': Forest, threshold: nat)
    requires TextsBelow(batch, a, names) && Round(map[], batch, f', threshold)
    requires |NameSet(names)| > threshold && NotNumeric(names[0])
    requires forall s, r :: s in names && r in names ==> |s| == |r|
    ensures PrintedForest(f') == {a + "/.[^/]+"}
  {
    SiblingsBelow(batch, a, names);
    assert !UnevenNames(NameSet(names)) && names[0] in NameSet(names);
    assert WildLeaf(NameSet(names), "/.[^/]+");
    hide *;
    SiblingBatchCollapses(batch, a, NameSet(names), f', threshold, "/.[^/]+");
  }

  /** Six paths below /api at the threshold five: they have different lengths and stay as they are. */
  lemma SixPathsStay(batch: seq<string>, f': Forest, x: string)
    requires batch == ["/api/users", "/api/orders", "/api/cart", "/api/login", "/api/items", "/api/logout"]
    requires Round(map[], batch, f', 5)
    ensures x in PrintedForest(f') <==> x in batch
  {
    var names := ["/users", "/orders", "/cart", "/login", "/items", "/logout"];
    SixTexts(batch, names);
    hide *;
    TextsStay(batch, "/api", names, f', 5, x);
  }

  predicate TextOf(text: string, a: string, name: string) {
    IsToken(name) && !IsWild(name) && text == a + name
  }

  lemma SixTexts(batch: seq<string>, names: seq<string>)
    requires batch == ["/api/users", "/api/orders", "/api/cart", "/api/login", "/api/items", "/api/logout"]
    requires names == ["/users", "/orders", "/cart", "/login", "/items", "/logout"]
    ensures TextsBelow(batch, "/api", names)
    ensures exists s, r :: s in names && r in names && |s| != |r|
  {
    assert TextOf("/api/users", "/api", "/users") && TextOf("/api/orders", "/api", "/orders");
    assert TextOf("/api/cart", "/api", "/cart") && TextOf("/api/login", "/api", "/login");
    assert TextOf("/api/items", "/api", "/items") && TextOf("/api/logout", "/api", "/logout");
    assert IsToken("/api") && names[0] in names && names[1] in names && |names[0]| != |names[1]|;
    assert forall i :: 0 <= i < |names| ==> TextOf(batch[i], "/api", names[i]);
  }

  /** Six of one length become one pattern for anything. */
  lemma SixPathsCollapse(batch: seq<string>, f': Forest)
    requires batch == ["/api/a", "/api/b", "/api/c", "/api/d", "/api/e", "/api/f"] && Round(map[], batch, f', 5)
    ensures PrintedForest(f') == {"/api/.[^/]+"}
  {
    hide Round, PrintedForest;
    var names := ["/a", "/b", "/c", "/d", "/e", "/f"];
    assert TextsBelow(batch, "/api", names) && NotNumeric(names[0]);
    assert "/api" + "/.[^/]+" == "/api/.[^/]+";
    SixNames(names);
    hide TextsBelow, NotNumeric, NameSet;
    TextsCollapse(batch, "/api", names, f', 5);
  }

  lemma SixNames(names: seq<string>)
    requires names == ["/a", "/b", "/c", "/d", "/e", "/f"]
    ensures |NameSet(names)| == 6
    ensures forall s :: s in names ==> |s| == 2
  {
    assert NameSet(names) == {"/a", "/b", "/c", "/d", "/e", "/f"};
    assert "/a"[1] == 'a' && "/b"[1] == 'b' && "/c"[1] == 'c' && "/d"[1] == 'd' && "/e"[1] == 'e' && "/f"[1] == 'f';
  }
}
